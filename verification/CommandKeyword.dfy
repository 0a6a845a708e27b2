/** Matching a keyword group of lib/command.c against a command line: clauses may come in any
    order, and their values are laid out in slots fixed by the group. */
module CommandKeyword {

  import opened Types

  const CMD_ARGC_MAX := 25

  /** Ranks of enum match_type that the matcher singles out. */
  const NO_MATCH: nat := 0
  const PARTLY_MATCH: nat := 13

  /** An argument of a keyword: a fixed string, a variable, or a choice.  Options and varargs
      are not allowed there. */
  datatype Arg = Fixed(cmd: string) | Variable(cmd: string) | Multiple(cmds: seq<string>)

  datatype Alt = Alt(keyword: string, args: seq<Arg>)

  /** cmd_word_match with the matcher's filter: how well a word fits a token. */
  type Fit = (string, string) -> nat

  datatype Rv = MatchOk | Incomplete | NoMatch | Ambiguous | ExceedArgcMax

  /** An argument slot; None is the null pointer. */
  type Value = Option<string>

  /** push_argument stores an empty word as null. */
  function Pushed(word: string): Value {
    if word == "" then None else Some(word)
  }

  // ----- Finding the alternative a word selects -----

  datatype Pick = Nothing | Unclear | Chosen(i: nat)

  /** The loop over alternatives from i on, skipping those used before; `best` fits with rank
      `rank` so far. */
  function PickFrom(alts: seq<Alt>, fit: Fit, word: string, used: set<nat>, i: nat, best: Pick, rank: nat): (r: Pick)
    requires i <= |alts|
    requires best.Chosen? ==> best.i < |alts| && best.i !in used
    ensures r.Chosen? ==> r.i < |alts| && r.i !in used
    decreases |alts| - i
  {
    if i == |alts| then best
    else if i in used then PickFrom(alts, fit, word, used, i + 1, best, rank)
    else
      var m := fit(alts[i].keyword, word);
      if m == NO_MATCH then PickFrom(alts, fit, word, used, i + 1, best, rank)
      else if m > rank then PickFrom(alts, fit, word, used, i + 1, Chosen(i), m)
      else if m == rank then Unclear
      else PickFrom(alts, fit, word, used, i + 1, best, rank)
  }

  function PickAlt(alts: seq<Alt>, fit: Fit, word: string, used: set<nat>): (r: Pick)
    ensures r.Chosen? ==> r.i < |alts| && r.i !in used
  {
    PickFrom(alts, fit, word, used, 0, Nothing, NO_MATCH)
  }

  /** The word selects alternative a and no other. */
  predicate Selects(alts: seq<Alt>, fit: Fit, word: string, a: nat) {
    a < |alts| && forall i | 0 <= i < |alts| :: (fit(alts[i].keyword, word) != NO_MATCH <==> i == a)
  }

  lemma {:induction false} PickFromSelects(alts: seq<Alt>, fit: Fit, word: string, used: set<nat>, a: nat, i: nat)
    requires Selects(alts, fit, word, a) && i <= |alts|
    ensures i <= a ==> PickFrom(alts, fit, word, used, i, Nothing, NO_MATCH) == if a in used then Nothing else Chosen(a)
    ensures i > a && a !in used ==>
              PickFrom(alts, fit, word, used, i, Chosen(a), fit(alts[a].keyword, word)) == Chosen(a)
    ensures i > a ==> PickFrom(alts, fit, word, used, i, Nothing, NO_MATCH) == Nothing
    decreases |alts| - i
  {
    if i < |alts| { PickFromSelects(alts, fit, word, used, a, i + 1); }
  }

  /** How well a word fits alternative i, as far as it is still unused. */
  function RankOf(alts: seq<Alt>, fit: Fit, word: string, used: set<nat>, i: nat): nat
    requires i < |alts|
  {
    if i in used then NO_MATCH else fit(alts[i].keyword, word)
  }

  /** Alternative i fits as well as the best one before it. */
  predicate Ties(alts: seq<Alt>, fit: Fit, word: string, used: set<nat>, i: nat)
    requires i < |alts|
  {
    var rank := RankOf(alts, fit, word, used, i);
    && rank != NO_MATCH
    && (forall j | 0 <= j < i :: RankOf(alts, fit, word, used, j) <= rank)
    && (exists j | 0 <= j < i :: RankOf(alts, fit, word, used, j) == rank)
  }

  /** Alternative k fits better than every other. */
  predicate FitsBest(alts: seq<Alt>, fit: Fit, word: string, used: set<nat>, k: nat) {
    && k < |alts| && RankOf(alts, fit, word, used, k) != NO_MATCH
    && forall j | 0 <= j < |alts| && j != k :: RankOf(alts, fit, word, used, j) < RankOf(alts, fit, word, used, k)
  }

  /** `best` is the answer among the alternatives below i, none of which ties. */
  ghost predicate BestBelow(alts: seq<Alt>, fit: Fit, word: string, used: set<nat>, i: nat, best: Pick, rank: nat) {
    && i <= |alts| && !best.Unclear? && (forall j | 0 <= j < i :: !Ties(alts, fit, word, used, j))
    && (if best.Nothing? then rank == NO_MATCH
        else best.i < i && best.i !in used && rank != NO_MATCH && rank == RankOf(alts, fit, word, used, best.i))
    && (forall j | 0 <= j < i && !(best.Chosen? && j == best.i) ::
          RankOf(alts, fit, word, used, j) < rank || (rank == NO_MATCH && RankOf(alts, fit, word, used, j) == NO_MATCH))
  }

  lemma {:induction false} PickFromMeans(
      alts: seq<Alt>, fit: Fit, word: string, used: set<nat>, i: nat, best: Pick, rank: nat)
    requires BestBelow(alts, fit, word, used, i, best, rank)
    ensures var r := PickFrom(alts, fit, word, used, i, best, rank);
            && (r.Unclear? ==> exists j | 0 <= j < |alts| :: Ties(alts, fit, word, used, j))
            && (!r.Unclear? ==> exists rank' :: BestBelow(alts, fit, word, used, |alts|, r, rank'))
    decreases |alts| - i
  {
    if i < |alts| {
      var m := RankOf(alts, fit, word, used, i);
      if m != NO_MATCH && m == rank {
        assert RankOf(alts, fit, word, used, best.i) == m;
        assert Ties(alts, fit, word, used, i);
      } else {
        assert !Ties(alts, fit, word, used, i);
        var best', rank' := if m > rank then Chosen(i) else best, if m > rank then m else rank;
        PickFromMeans(alts, fit, word, used, i + 1, best', rank');
      }
    }
  }

  /** The alternative chosen is the one that fits best; a tie with the best so far makes the word
      ambiguous; and a word that fits no unused alternative selects none. */
  lemma PickMeans(alts: seq<Alt>, fit: Fit, word: string, used: set<nat>)
    ensures var r := PickAlt(alts, fit, word, used);
            && (r.Unclear? <==> exists j | 0 <= j < |alts| :: Ties(alts, fit, word, used, j))
            && (r.Nothing? <==> forall j | 0 <= j < |alts| :: RankOf(alts, fit, word, used, j) == NO_MATCH)
            && (r.Chosen? ==> FitsBest(alts, fit, word, used, r.i))
  {
    PickFromMeans(alts, fit, word, used, 0, Nothing, NO_MATCH);
    var r := PickAlt(alts, fit, word, used);
    if !r.Unclear? {
      var rank :| BestBelow(alts, fit, word, used, |alts|, r, rank);
    }
  }

  // ----- Matching a keyword's arguments -----

  /** The best-fitting choice from index i on, strictly better ones replacing it. */
  function ChooseFrom(cmds: seq<string>, fit: Fit, word: string, i: nat, rank: nat, value: string): (nat, string)
    requires i <= |cmds|
    decreases |cmds| - i
  {
    if i == |cmds| then (rank, value)
    else
      var m := fit(cmds[i], word);
      if m > rank then ChooseFrom(cmds, fit, word, i + 1, m, if m == PARTLY_MATCH then cmds[i] else word)
      else ChooseFrom(cmds, fit, word, i + 1, rank, value)
  }

  /** What matching one argument against a word yields: a verdict and the values pushed. */
  datatype Matched = Matched(rv: Rv, values: seq<Value>)

  function MatchArg(arg: Arg, fit: Fit, word: string): Matched {
    match arg
    case Fixed(cmd) => if fit(cmd, word) == NO_MATCH then Matched(NoMatch, []) else Matched(MatchOk, [])
    case Variable(cmd) => if fit(cmd, word) == NO_MATCH then Matched(NoMatch, []) else Matched(MatchOk, [Pushed(word)])
    case Multiple(cmds) =>
      var (rank, value) := ChooseFrom(cmds, fit, word, 0, NO_MATCH, "");
      if rank == NO_MATCH then Matched(NoMatch, []) else Matched(MatchOk, [Pushed(value)])
  }

  predicate TakesSlot(arg: Arg) {
    !arg.Fixed?
  }

  /** Matches the arguments against words[i..]; `acc` has been pushed for the keyword so far. */
  function MatchArgs(args: seq<Arg>, fit: Fit, words: seq<string>, i: nat, acc: seq<Value>): (Matched, nat)
    requires i <= |words|
    decreases |args|
  {
    if args == [] then (Matched(MatchOk, acc), i)
    else if i == |words| then (Matched(Incomplete, acc), i)
    else
      var m := MatchArg(args[0], fit, words[i]);
      if m.rv != MatchOk then (Matched(m.rv, acc), i)
      else if m.values != [] && |acc| >= CMD_ARGC_MAX then (Matched(ExceedArgcMax, acc), i)
      else MatchArgs(args[1..], fit, words, i + 1, acc + m.values)
  }

  /** Choice b fits the word best; among equals the first. */
  predicate BestChoice(cmds: seq<string>, fit: Fit, word: string, b: nat) {
    && b < |cmds| && fit(cmds[b], word) != NO_MATCH
    && (forall j | 0 <= j < |cmds| :: fit(cmds[j], word) <= fit(cmds[b], word))
    && (forall j | 0 <= j < b :: fit(cmds[j], word) < fit(cmds[b], word))
  }

  /** What a choice puts in its slot: itself if the word only abbreviates it, else the word. */
  function Completed(cmd: string, fit: Fit, word: string): string {
    if fit(cmd, word) == PARTLY_MATCH then cmd else word
  }

  /** Among the first i choices, b is the best, with rank `rank` and the value it puts in its slot. */
  predicate BestSoFar(cmds: seq<string>, fit: Fit, word: string, i: nat, rank: nat, value: string, b: nat) {
    && i <= |cmds| && (forall j | 0 <= j < i :: fit(cmds[j], word) <= rank)
    && (rank != NO_MATCH ==>
          && b < i && fit(cmds[b], word) == rank && value == Completed(cmds[b], fit, word)
          && forall j | 0 <= j < b :: fit(cmds[j], word) < rank)
  }

  lemma {:induction false} ChooseFromMeans(
      cmds: seq<string>, fit: Fit, word: string, i: nat, rank: nat, value: string, b: nat) returns (b': nat)
    requires BestSoFar(cmds, fit, word, i, rank, value, b)
    ensures var (rank', value') := ChooseFrom(cmds, fit, word, i, rank, value);
            BestSoFar(cmds, fit, word, |cmds|, rank', value', b')
    decreases |cmds| - i
  {
    b' := b;
    if i < |cmds| {
      var m := fit(cmds[i], word);
      if m > rank {
        b' := ChooseFromMeans(cmds, fit, word, i + 1, m, Completed(cmds[i], fit, word), i);
      } else {
        b' := ChooseFromMeans(cmds, fit, word, i + 1, rank, value, b);
      }
    }
  }

  /** An argument accepts a word. */
  predicate Accepts(arg: Arg, fit: Fit, word: string) {
    match arg
    case Fixed(cmd) => fit(cmd, word) != NO_MATCH
    case Variable(cmd) => fit(cmd, word) != NO_MATCH
    case Multiple(cmds) => exists b | 0 <= b < |cmds| :: fit(cmds[b], word) != NO_MATCH
  }

  /** v is what an argument's slot holds for a word: what was typed, or the best choice. */
  predicate SlotHolds(arg: Arg, fit: Fit, word: string, v: Value) {
    match arg
    case Fixed(_) => true
    case Variable(_) => v == if word == "" then None else Some(word)
    case Multiple(cmds) =>
      exists b | 0 <= b < |cmds| ::
        BestChoice(cmds, fit, word, b) && v == Pushed(Completed(cmds[b], fit, word))
  }

  lemma MatchArgMeans(arg: Arg, fit: Fit, word: string)
    ensures var m := MatchArg(arg, fit, word);
            && (m.rv == MatchOk <==> Accepts(arg, fit, word))
            && (m.rv == MatchOk ==>
                  if TakesSlot(arg) then |m.values| == 1 && SlotHolds(arg, fit, word, m.values[0]) else m.values == [])
  {
    if arg.Multiple? {
      var b := ChooseFromMeans(arg.cmds, fit, word, 0, NO_MATCH, "", 0);
      var (rank, value) := ChooseFrom(arg.cmds, fit, word, 0, NO_MATCH, "");
      if rank != NO_MATCH { assert BestChoice(arg.cmds, fit, word, b); }
    }
  }

  // ----- Reading the clauses of a line -----

  /** The values of each keyword present, by alternative. */
  type Present = map<nat, seq<Value>>

  datatype ReadResult = ReadResult(rv: Rv, present: Present, next: nat)

  function Read(alts: seq<Alt>, fit: Fit, words: seq<string>, i: nat, present: Present): ReadResult
    requires i <= |words|
    decreases |words| - i
  {
    if i == |words| then ReadResult(MatchOk, present, i)
    else
      match PickAlt(alts, fit, words[i], present.Keys)
      case Nothing => ReadResult(NoMatch, present, i)
      case Unclear => ReadResult(Ambiguous, present, i)
      case Chosen(k) =>
        MatchArgsBounds(alts[k].args, fit, words, i + 1, []);
        var (m, next) := MatchArgs(alts[k].args, fit, words, i + 1, []);
        var present' := present[k := m.values];
        if m.rv != MatchOk then ReadResult(m.rv, present', next)
        else Read(alts, fit, words, next, present')
  }

  /** Slots an alternative's arguments take. */
  function ArgSlots(args: seq<Arg>): nat {
    if args == [] then 0 else (if TakesSlot(args[0]) then 1 else 0) + ArgSlots(args[1..])
  }

  lemma {:induction false} MatchArgsBounds(args: seq<Arg>, fit: Fit, words: seq<string>, i: nat, acc: seq<Value>)
    requires i <= |words|
    ensures var (m, next) := MatchArgs(args, fit, words, i, acc);
            i <= next <= |words| && (m.rv == MatchOk ==> next == i + |args| && |m.values| == |acc| + ArgSlots(args))
    decreases |args|
  {
    if args != [] && i < |words| {
      var m := MatchArg(args[0], fit, words[i]);
      if m.rv == MatchOk && (m.values == [] || |acc| < CMD_ARGC_MAX) {
        MatchArgsBounds(args[1..], fit, words, i + 1, acc + m.values);
      }
    }
  }

  /** Slots taken by the arguments in front of argument j. */
  function SlotOf(args: seq<Arg>, j: nat): nat
    requires j <= |args|
  {
    if j == 0 then 0 else SlotOf(args, j - 1) + if TakesSlot(args[j - 1]) then 1 else 0
  }

  lemma {:induction false} SlotOfShift(args: seq<Arg>, j: nat)
    requires 0 < j <= |args|
    ensures SlotOf(args, j) == (if TakesSlot(args[0]) then 1 else 0) + SlotOf(args[1..], j - 1)
  {
    if j > 1 { SlotOfShift(args, j - 1); }
  }

  lemma {:induction false} SlotsInAll(args: seq<Arg>)
    ensures ArgSlots(args) == SlotOf(args, |args|)
  {
    if args != [] {
      SlotsInAll(args[1..]);
      SlotOfShift(args, |args|);
    }
  }

  lemma {:induction false} SlotOfGrows(args: seq<Arg>, i: nat, j: nat)
    requires i <= j <= |args|
    ensures SlotOf(args, i) <= SlotOf(args, j)
    decreases j
  {
    if i < j { SlotOfGrows(args, i, j - 1); }
  }

  lemma ArgSlotInside(args: seq<Arg>, j: nat)
    requires j < |args| && TakesSlot(args[j])
    ensures SlotOf(args, j) < ArgSlots(args)
  {
    SlotsInAll(args);
    SlotOfGrows(args, j + 1, |args|);
  }

  /** Arguments match when there is a word for each, each accepts its word and there is room; then
      each argument's slot holds what its word stands for. */
  lemma {:induction false} MatchArgsMeans(args: seq<Arg>, fit: Fit, words: seq<string>, i: nat, acc: seq<Value>)
    requires i + |args| <= |words| && |acc| <= CMD_ARGC_MAX
    ensures var m := MatchArgs(args, fit, words, i, acc).0;
            && (m.rv == MatchOk <==>
                  && (forall j | 0 <= j < |args| :: Accepts(args[j], fit, words[i + j]))
                  && |acc| + ArgSlots(args) <= CMD_ARGC_MAX)
            && (m.rv == MatchOk ==> |m.values| == |acc| + ArgSlots(args) && m.values[..|acc|] == acc)
    ensures var m := MatchArgs(args, fit, words, i, acc).0;
            forall j | 0 <= j < |args| && m.rv == MatchOk && TakesSlot(args[j]) ::
              && |acc| + SlotOf(args, j) < |m.values|
              && SlotHolds(args[j], fit, words[i + j], m.values[|acc| + SlotOf(args, j)])
    decreases |args|
  {
    hide Accepts, SlotHolds, MatchArg;
    if args != [] {
      var first := MatchArg(args[0], fit, words[i]);
      MatchArgMeans(args[0], fit, words[i]);
      var rest := args[1..];
      if first.rv == MatchOk && (first.values == [] || |acc| < CMD_ARGC_MAX) {
        var acc' := acc + first.values;
        MatchArgsMeans(rest, fit, words, i + 1, acc');
        var m := MatchArgs(rest, fit, words, i + 1, acc').0;
        assert MatchArgs(args, fit, words, i, acc).0 == m;
        assert forall j | 0 < j < |args| :: args[j] == rest[j - 1] && words[i + j] == words[i + 1 + (j - 1)];
        assert forall j | 0 <= j < |rest| :: rest[j] == args[j + 1];
        if m.rv == MatchOk {
          assert m.values[..|acc'|] == acc' && m.values[..|acc|] == m.values[..|acc'|][..|acc|] == acc;
          forall j | 0 <= j < |args| && TakesSlot(args[j])
            ensures |acc| + SlotOf(args, j) < |m.values|
                    && SlotHolds(args[j], fit, words[i + j], m.values[|acc| + SlotOf(args, j)])
          {
            if j == 0 {
              assert m.values[|acc|] == m.values[..|acc'|][|acc|] == first.values[0];
            } else {
              SlotOfShift(args, j);
              assert SlotHolds(rest[j - 1], fit, words[i + 1 + (j - 1)], m.values[|acc'| + SlotOf(rest, j - 1)]);
            }
          }
        }
      } else {
        assert first.rv != MatchOk ==> !Accepts(args[0], fit, words[i + 0]);
      }
    }
  }

  // ----- The layout -----

  /** A keyword without arguments has one slot of its own. */
  function Slots(alt: Alt): nat {
    if alt.args == [] then 1 else ArgSlots(alt.args)
  }

  function Nulls(n: nat): seq<Value> {
    seq(n, _ => None)
  }

  /** What alternative i contributes to the argument list. */
  function Row(alt: Alt, i: nat, present: Present): seq<Value> {
    if alt.args == [] then [if i in present then Pushed(alt.keyword) else None]
    else if i in present then present[i]
    else Nulls(ArgSlots(alt.args))
  }

  /** The rows of alternatives i.. in order. */
  function Layout(alts: seq<Alt>, i: nat, present: Present): seq<Value>
    requires i <= |alts|
    decreases |alts| - i
  {
    if i == |alts| then [] else Row(alts[i], i, present) + Layout(alts, i + 1, present)
  }

  /** Where alternative k's row starts, counted from alternative i. */
  function Offset(alts: seq<Alt>, i: nat, k: nat): nat
    requires i <= k <= |alts|
    decreases k - i
  {
    if i == k then 0 else Slots(alts[i]) + Offset(alts, i + 1, k)
  }

  /** Every keyword that was read has filled its slots. */
  ghost predicate Complete(alts: seq<Alt>, present: Present) {
    forall i :: i in present ==> i < |alts| && (alts[i].args == [] || |present[i]| == ArgSlots(alts[i].args))
  }

  lemma {:induction false} ReadCompletes(alts: seq<Alt>, fit: Fit, words: seq<string>, i: nat, present: Present)
    requires i <= |words| && Complete(alts, present)
    ensures var r := Read(alts, fit, words, i, present);
            r.rv == MatchOk ==> Complete(alts, r.present) && r.next == |words|
    decreases |words| - i
  {
    if i < |words| {
      var pick := PickAlt(alts, fit, words[i], present.Keys);
      if pick.Chosen? {
        MatchArgsBounds(alts[pick.i].args, fit, words, i + 1, []);
        var (m, next) := MatchArgs(alts[pick.i].args, fit, words, i + 1, []);
        if m.rv == MatchOk {
          ReadCompletes(alts, fit, words, next, present[pick.i := m.values]);
        }
      }
    }
  }

  lemma SliceInside<T>(a: seq<T>, b: seq<T>, at: nat, n: nat)
    requires at + n <= |b|
    ensures (a + b)[|a| + at..|a| + at + n] == b[at..at + n] && (a + b)[0..|a|] == a
  {
  }

  lemma ConcatAssoc<T>(a: seq<T>, b: seq<T>, c: seq<T>)
    ensures a + (b + c) == a + b + c
  {
  }

  lemma RowLength(alts: seq<Alt>, present: Present, i: nat)
    requires Complete(alts, present) && i < |alts|
    ensures |Row(alts[i], i, present)| == Slots(alts[i])
  {
  }

  lemma {:induction false} LayoutLength(alts: seq<Alt>, present: Present, i: nat)
    requires Complete(alts, present) && i <= |alts|
    ensures |Layout(alts, i, present)| == Offset(alts, i, |alts|)
    decreases |alts| - i
  {
    hide Row, Slots, Complete;
    if i < |alts| {
      RowLength(alts, present, i);
      LayoutLength(alts, present, i + 1);
    }
  }

  /** Whatever was read, each alternative's values sit at the same indices. */
  lemma {:induction false} LayoutIsFixed(alts: seq<Alt>, present: Present, i: nat, k: nat)
    requires Complete(alts, present) && i <= k < |alts|
    ensures var at := Offset(alts, i, k);
            && at + Slots(alts[k]) <= |Layout(alts, i, present)|
            && Layout(alts, i, present)[at..at + Slots(alts[k])] == Row(alts[k], k, present)
    decreases |alts| - i
  {
    hide Row, Slots, Complete;
    var row, rest := Row(alts[i], i, present), Layout(alts, i + 1, present);
    RowLength(alts, present, i);
    if i == k {
      SliceInside(row, rest, 0, 0);
    } else {
      LayoutIsFixed(alts, present, i + 1, k);
      SliceInside(row, rest, Offset(alts, i + 1, k), Slots(alts[k]));
    }
  }

  // ----- Lines made of whole clauses -----

  /** One keyword word with the words of its arguments. */
  datatype Clause = Clause(a: nat, word: string, args: seq<string>)

  /** The keyword word selects one alternative, and there is a word for each argument. */
  predicate WellFormed(alts: seq<Alt>, fit: Fit, c: Clause) {
    Selects(alts, fit, c.word, c.a) && |c.args| == |alts[c.a].args|
  }

  predicate AllWellFormed(alts: seq<Alt>, fit: Fit, cs: seq<Clause>) {
    forall i | 0 <= i < |cs| :: WellFormed(alts, fit, cs[i])
  }

  function Line(cs: seq<Clause>): seq<string> {
    if cs == [] then [] else [cs[0].word] + cs[0].args + Line(cs[1..])
  }

  function ClauseMatch(alts: seq<Alt>, fit: Fit, c: Clause): Matched
    requires WellFormed(alts, fit, c)
  {
    MatchArgs(alts[c.a].args, fit, c.args, 0, []).0
  }

  /** All arguments match and no keyword comes twice. */
  predicate Readable(alts: seq<Alt>, fit: Fit, cs: seq<Clause>)
    requires AllWellFormed(alts, fit, cs)
  {
    && (forall i | 0 <= i < |cs| :: ClauseMatch(alts, fit, cs[i]).rv == MatchOk)
    && (forall i, j | 0 <= i < j < |cs| :: cs[i].a != cs[j].a)
  }

  /** Matching looks only at the words it uses up, wherever they stand on the line. */
  lemma {:induction false} MatchArgsLocal(args: seq<Arg>, fit: Fit, ws: seq<string>, before: seq<string>,
                                          after: seq<string>, i: nat, acc: seq<Value>)
    requires i + |args| == |ws|
    ensures var (m, next) := MatchArgs(args, fit, ws, i, acc);
            MatchArgs(args, fit, before + ws + after, |before| + i, acc) == (m, |before| + next)
    decreases |args|
  {
    if args != [] {
      assert (before + ws + after)[|before| + i] == ws[i];
      var m := MatchArg(args[0], fit, ws[i]);
      if m.rv == MatchOk && (m.values == [] || |acc| < CMD_ARGC_MAX) {
        MatchArgsLocal(args[1..], fit, ws, before, after, i + 1, acc + m.values);
      }
    }
  }

  ghost predicate NoneUsed(cs: seq<Clause>, present: Present) {
    forall i | 0 <= i < |cs| :: cs[i].a !in present
  }

  /** `present` with the values of the clauses added. */
  function WithClauses(alts: seq<Alt>, fit: Fit, cs: seq<Clause>, present: Present): Present
    requires AllWellFormed(alts, fit, cs)
  {
    if cs == [] then present
    else WithClauses(alts, fit, cs[1..], present[cs[0].a := ClauseMatch(alts, fit, cs[0]).values])
  }

  /** Reading one clause, wherever it stands on the line. */
  lemma ReadClause(alts: seq<Alt>, fit: Fit, before: seq<string>, c: Clause, after: seq<string>, present: Present)
    requires WellFormed(alts, fit, c)
    ensures var m := ClauseMatch(alts, fit, c);
            var r := Read(alts, fit, before + [c.word] + c.args + after, |before|, present);
            if c.a in present || m.rv != MatchOk then r.rv != MatchOk
            else r == Read(alts, fit, before + [c.word] + c.args + after, |before + [c.word] + c.args|,
                           present[c.a := m.values])
  {
    var head := before + [c.word];
    var words := head + c.args + after;
    assert words[|before|] == c.word;
    PickFromSelects(alts, fit, c.word, present.Keys, c.a, 0);
    MatchArgsLocal(alts[c.a].args, fit, c.args, head, after, 0, []);
    MatchArgsBounds(alts[c.a].args, fit, c.args, 0, []);
  }

  /** A line of clauses reads as the values of its clauses; it is refused exactly when an
      argument does not match or a keyword is repeated. */
  lemma {:induction false} ReadLine(alts: seq<Alt>, fit: Fit, before: seq<string>, cs: seq<Clause>, present: Present)
    requires AllWellFormed(alts, fit, cs)
    ensures var r := Read(alts, fit, before + Line(cs), |before|, present);
            && (r.rv == MatchOk <==> Readable(alts, fit, cs) && NoneUsed(cs, present))
            && (r.rv == MatchOk ==> r.present == WithClauses(alts, fit, cs, present))
    decreases |cs|
  {
    hide WellFormed, ClauseMatch;
    if cs == [] {
      assert before + Line(cs) == before;
    } else {
      hide Read, Readable, NoneUsed, Line;
      var c, rest := cs[0], cs[1..];
      var head := before + [c.word] + c.args;
      LineSplit(before, cs);
      assert WellFormed(alts, fit, c);
      ReadClause(alts, fit, before, c, Line(rest), present);
      FirstClause(alts, fit, cs, present);
      var m := ClauseMatch(alts, fit, c);
      if c.a !in present && m.rv == MatchOk {
        ReadLine(alts, fit, head, rest, present[c.a := m.values]);
        ReadableSplit(alts, fit, cs, present, m.values);
      }
    }
  }

  lemma LineSplit(before: seq<string>, cs: seq<Clause>)
    requires cs != []
    ensures before + Line(cs) == before + [cs[0].word] + cs[0].args + Line(cs[1..])
  {
  }

  /** What the first clause decides. */
  lemma FirstClause(alts: seq<Alt>, fit: Fit, cs: seq<Clause>, present: Present)
    requires cs != [] && AllWellFormed(alts, fit, cs)
    ensures Readable(alts, fit, cs) && NoneUsed(cs, present) ==>
              cs[0].a !in present && ClauseMatch(alts, fit, cs[0]).rv == MatchOk
  {
  }

  lemma ReadableSplit(alts: seq<Alt>, fit: Fit, cs: seq<Clause>, present: Present, values: seq<Value>)
    requires cs != [] && AllWellFormed(alts, fit, cs)
    requires cs[0].a !in present && ClauseMatch(alts, fit, cs[0]).rv == MatchOk
    ensures Readable(alts, fit, cs) && NoneUsed(cs, present)
       <==> Readable(alts, fit, cs[1..]) && NoneUsed(cs[1..], present[cs[0].a := values])
  {
    var rest := cs[1..];
    var present' := present[cs[0].a := values];
    assert forall i | 0 <= i < |rest| :: rest[i] == cs[i + 1];
    assert forall i | 0 < i < |cs| :: cs[i] == rest[i - 1];
    if Readable(alts, fit, rest) && NoneUsed(rest, present') {
      forall i | 0 <= i < |cs| ensures cs[i].a !in present && (i > 0 ==> cs[i].a != cs[0].a) {
        if i > 0 { assert rest[i - 1].a !in present'; }
      }
    }
  }

  /** The values present after a readable line, clause by clause. */
  lemma {:induction false} WithClausesMeans(alts: seq<Alt>, fit: Fit, cs: seq<Clause>, present: Present)
    requires AllWellFormed(alts, fit, cs) && Readable(alts, fit, cs) && NoneUsed(cs, present)
    ensures var p := WithClauses(alts, fit, cs, present);
            && (forall k :: k in p <==> k in present || exists c | c in cs :: c.a == k)
            && (forall k | k in present :: k in p && p[k] == present[k])
            && (forall c | c in cs ::
                  c.a in p && WellFormed(alts, fit, c) && p[c.a] == ClauseMatch(alts, fit, c).values)
    decreases |cs|
  {
    hide ClauseMatch, WellFormed;
    if cs != [] {
      var values := ClauseMatch(alts, fit, cs[0]).values;
      ReadableSplit(alts, fit, cs, present, values);
      WithClausesMeans(alts, fit, cs[1..], present[cs[0].a := values]);
      assert forall c | c in cs :: c == cs[0] || c in cs[1..];
    }
  }

  /** A clause is accepted when each argument accepts its word and the slots are within the limit. */
  lemma ClauseAccepted(alts: seq<Alt>, fit: Fit, c: Clause)
    requires WellFormed(alts, fit, c)
    ensures ClauseMatch(alts, fit, c).rv == MatchOk <==>
              && (forall j | 0 <= j < |c.args| :: Accepts(alts[c.a].args[j], fit, c.args[j]))
              && ArgSlots(alts[c.a].args) <= CMD_ARGC_MAX
  {
    MatchArgsMeans(alts[c.a].args, fit, c.args, 0, []);
  }

  /** What the slots of alternative k hold.  A keyword without arguments puts itself there if some
      clause selects it.  The arguments of one that has them put there what was typed for them, or
      the best choice.  Without a clause that selects it all are null. */
  ghost predicate SlotsHold(alts: seq<Alt>, fit: Fit, cs: seq<Clause>, k: nat, slots: seq<Value>)
    requires AllWellFormed(alts, fit, cs) && k < |alts|
  {
    && |slots| == Slots(alts[k])
    && (forall i | 0 <= i < |cs| && cs[i].a == k :: ClauseHolds(alts[k], fit, cs[i], slots))
    && ((forall i | 0 <= i < |cs| :: cs[i].a != k) ==> forall j | 0 <= j < |slots| :: slots[j] == None)
  }

  ghost predicate ClauseHolds(alt: Alt, fit: Fit, c: Clause, slots: seq<Value>) {
    && |c.args| == |alt.args|
    && (alt.args == [] ==> slots == [if alt.keyword == "" then None else Some(alt.keyword)])
    && (forall j | 0 <= j < |alt.args| && TakesSlot(alt.args[j]) ::
          && SlotOf(alt.args, j) < |slots|
          && SlotHolds(alt.args[j], fit, c.args[j], slots[SlotOf(alt.args, j)]))
  }

  /** A readable line is accepted and fills every alternative's slots so, at indices that depend on
      the group only. */
  lemma KeywordSlots(alts: seq<Alt>, fit: Fit, cs: seq<Clause>, k: nat)
    requires AllWellFormed(alts, fit, cs) && Readable(alts, fit, cs) && k < |alts|
    ensures var r := Read(alts, fit, Line(cs), 0, map[]);
            var at := Offset(alts, 0, k);
            var values := Layout(alts, 0, r.present);
            && r.rv == MatchOk && at + Slots(alts[k]) <= |values|
            && SlotsHold(alts, fit, cs, k, values[at..at + Slots(alts[k])])
  {
    hide Read, Layout, Readable, Offset, Row, SlotsHold, FromClauses, Complete, Slots, AllWellFormed;
    LinePresent(alts, fit, cs);
    var p := Read(alts, fit, Line(cs), 0, map[]).present;
    LayoutIsFixed(alts, p, 0, k);
    RowHolds(alts, fit, cs, k, p);
  }

  /** The keywords present are those of the clauses, with their values. */
  ghost predicate FromClauses(alts: seq<Alt>, fit: Fit, cs: seq<Clause>, p: Present) {
    && (forall c | c in cs :: c.a in p && WellFormed(alts, fit, c) && p[c.a] == ClauseMatch(alts, fit, c).values)
    && (forall k | k in p :: exists c | c in cs :: c.a == k)
  }

  lemma LinePresent(alts: seq<Alt>, fit: Fit, cs: seq<Clause>)
    requires AllWellFormed(alts, fit, cs) && Readable(alts, fit, cs)
    ensures var r := Read(alts, fit, Line(cs), 0, map[]);
            r.rv == MatchOk && Complete(alts, r.present) && FromClauses(alts, fit, cs, r.present)
  {
    hide Read, ClauseMatch, WithClauses, Readable, WellFormed;
    assert [] + Line(cs) == Line(cs);
    ReadLine(alts, fit, [], cs, map[]);
    WithClausesMeans(alts, fit, cs, map[]);
    ReadCompletes(alts, fit, Line(cs), 0, map[]);
  }

  lemma RowHolds(alts: seq<Alt>, fit: Fit, cs: seq<Clause>, k: nat, p: Present)
    requires AllWellFormed(alts, fit, cs) && Readable(alts, fit, cs) && k < |alts| && Complete(alts, p)
    requires FromClauses(alts, fit, cs, p)
    ensures SlotsHold(alts, fit, cs, k, Row(alts[k], k, p))
  {
    hide ClauseMatch, ClauseHolds, WellFormed, Readable;
    RowLength(alts, p, k);
    forall i | 0 <= i < |cs| && cs[i].a == k ensures ClauseHolds(alts[k], fit, cs[i], Row(alts[k], k, p)) {
      assert cs[i] in cs;
      ReadableClause(alts, fit, cs, i);
      ClauseFills(alts, fit, cs[i], p);
    }
  }

  lemma ReadableClause(alts: seq<Alt>, fit: Fit, cs: seq<Clause>, i: nat)
    requires AllWellFormed(alts, fit, cs) && Readable(alts, fit, cs) && i < |cs|
    ensures WellFormed(alts, fit, cs[i]) && ClauseMatch(alts, fit, cs[i]).rv == MatchOk
  {
  }

  lemma ClauseFills(alts: seq<Alt>, fit: Fit, c: Clause, p: Present)
    requires WellFormed(alts, fit, c) && ClauseMatch(alts, fit, c).rv == MatchOk
    requires c.a in p && p[c.a] == ClauseMatch(alts, fit, c).values
    ensures ClauseHolds(alts[c.a], fit, c, Row(alts[c.a], c.a, p))
  {
    hide SlotHolds, Accepts;
    var args := alts[c.a].args;
    MatchArgsMeans(args, fit, c.args, 0, []);
    forall j | 0 <= j < |args| && TakesSlot(args[j]) ensures SlotOf(args, j) < ArgSlots(args) {
      ArgSlotInside(args, j);
    }
  }

  /** Writing the clauses of a line in another order changes neither whether it is accepted nor
      what it puts in the argument list. */
  lemma {:induction false} ClauseOrderIrrelevant(alts: seq<Alt>, fit: Fit, cs: seq<Clause>, cs': seq<Clause>)
    requires AllWellFormed(alts, fit, cs) && multiset(cs) == multiset(cs')
    ensures var r, r' := Read(alts, fit, Line(cs), 0, map[]), Read(alts, fit, Line(cs'), 0, map[]);
            && (r.rv == MatchOk <==> r'.rv == MatchOk)
            && (r.rv == MatchOk ==> r.present == r'.present
                                    && Layout(alts, 0, r.present) == Layout(alts, 0, r'.present))
  {
    hide Read, AllWellFormed, Layout, Readable;
    PermutedReadable(alts, fit, cs, cs');
    PermutedReadable(alts, fit, cs', cs);
    assert [] + Line(cs) == Line(cs) && [] + Line(cs') == Line(cs');
    ReadLine(alts, fit, [], cs, map[]);
    ReadLine(alts, fit, [], cs', map[]);
    if Readable(alts, fit, cs) {
      PermutedPresent(alts, fit, cs, cs');
    }
  }

  lemma {:induction false} PermutedPresent(alts: seq<Alt>, fit: Fit, cs: seq<Clause>, cs': seq<Clause>)
    requires AllWellFormed(alts, fit, cs) && Readable(alts, fit, cs)
    requires AllWellFormed(alts, fit, cs') && Readable(alts, fit, cs') && multiset(cs) == multiset(cs')
    ensures WithClauses(alts, fit, cs, map[]) == WithClauses(alts, fit, cs', map[])
  {
    hide WithClauses, Readable, ClauseMatch;
    WithClausesMeans(alts, fit, cs, map[]);
    WithClausesMeans(alts, fit, cs', map[]);
    SameMembers(cs, cs');
    var p, p' := WithClauses(alts, fit, cs, map[]), WithClauses(alts, fit, cs', map[]);
    forall k | k in p ensures k in p' && p[k] == p'[k] {
      var c :| c in cs && c.a == k;
    }
    forall k | k in p' ensures k in p {
      var c :| c in cs' && c.a == k;
    }
  }

  lemma SameMembers<T>(s: seq<T>, t: seq<T>)
    requires multiset(s) == multiset(t)
    ensures forall x :: x in s <==> x in t
  {
    forall x ensures x in s <==> x in t {
      assert x in s <==> x in multiset(s);
      assert x in t <==> x in multiset(t);
    }
  }

  lemma PermutedReadable(alts: seq<Alt>, fit: Fit, cs: seq<Clause>, cs': seq<Clause>)
    requires multiset(cs) == multiset(cs') && AllWellFormed(alts, fit, cs)
    ensures AllWellFormed(alts, fit, cs')
    ensures Readable(alts, fit, cs) ==> Readable(alts, fit, cs')
  {
    SameMembers(cs, cs');
    forall i | 0 <= i < |cs'| ensures WellFormed(alts, fit, cs'[i]) {
      assert cs'[i] in cs;
    }
    if Readable(alts, fit, cs) {
      forall i | 0 <= i < |cs'| ensures ClauseMatch(alts, fit, cs'[i]).rv == MatchOk {
        assert cs'[i] in cs;
      }
      forall i, j | 0 <= i < j < |cs'| ensures cs'[i].a != cs'[j].a {
        DistinctTransfers(cs, cs', i, j);
      }
    }
  }

  lemma DistinctTransfers(cs: seq<Clause>, cs': seq<Clause>, i: nat, j: nat)
    requires multiset(cs) == multiset(cs') && i < j < |cs'|
    requires forall x, y | 0 <= x < y < |cs| :: cs[x].a != cs[y].a
    ensures cs'[i].a != cs'[j].a
  {
    if cs'[i].a == cs'[j].a {
      SameMembers(cs, cs');
      assert cs'[i] in cs && cs'[j] in cs;
      var x :| 0 <= x < |cs| && cs[x] == cs'[i];
      var y :| 0 <= y < |cs| && cs[y] == cs'[j];
      assert x == y;
      TwiceInSeq(cs', i, j);
      OnceInSeq(cs, x);
      assert false;
    }
  }

  lemma TwiceInSeq<T>(s: seq<T>, i: nat, j: nat)
    requires i < j < |s| && s[i] == s[j]
    ensures multiset(s)[s[i]] >= 2
  {
    assert s == s[..i] + [s[i]] + s[i + 1..j] + [s[j]] + s[j + 1..];
  }

  lemma OnceInSeq<T>(s: seq<T>, x: nat)
    requires x < |s| && forall y | 0 <= y < |s| && y != x :: s[y] != s[x]
    ensures multiset(s)[s[x]] == 1
  {
    assert s == s[..x] + [s[x]] + s[x + 1..];
    assert s[x] !in s[..x] && s[x] !in s[x + 1..];
  }

  // ----- The matcher as it runs -----

  /** The loop over the alternatives in cmd_matcher_read_keywords. */
  method FindKeyword(alts: seq<Alt>, fit: Fit, word: string, mask: set<nat>) returns (r: Pick)
    ensures r == PickAlt(alts, fit, word, mask)
  {
    r := Nothing;
    var keywordMatch, i := NO_MATCH, 0;
    while i < |alts|
      invariant 0 <= i <= |alts| && (r.Chosen? ==> r.i < |alts| && r.i !in mask)
      invariant PickAlt(alts, fit, word, mask) == PickFrom(alts, fit, word, mask, i, r, keywordMatch)
    {
      if i !in mask {
        var wordMatch := fit(alts[i].keyword, word);
        if wordMatch != NO_MATCH {
          if wordMatch > keywordMatch {
            keywordMatch, r := wordMatch, Chosen(i);
          } else if wordMatch == keywordMatch {
            return Unclear;
          }
        }
      }
      i := i + 1;
    }
  }

  /** The loop of cmd_matcher_match_multiple: ambiguities are tolerated, the first of the best
      wins, and a partial match is completed. */
  method MatchMultiple(cmds: seq<string>, fit: Fit, word: string) returns (m: Matched)
    ensures m == MatchArg(Multiple(cmds), fit, word)
  {
    var multipleMatch, arg, i := NO_MATCH, "", 0;
    while i < |cmds|
      invariant 0 <= i <= |cmds|
      invariant ChooseFrom(cmds, fit, word, 0, NO_MATCH, "") == ChooseFrom(cmds, fit, word, i, multipleMatch, arg)
    {
      var wordMatch := fit(cmds[i], word);
      if wordMatch > multipleMatch {
        multipleMatch := wordMatch;
        arg := if wordMatch == PARTLY_MATCH then cmds[i] else word;
      }
      i := i + 1;
    }
    m := if multipleMatch == NO_MATCH then Matched(NoMatch, []) else Matched(MatchOk, [Pushed(arg)]);
  }

  /** The loop over a keyword's arguments. */
  method ReadArguments(args: seq<Arg>, fit: Fit, words: seq<string>, start: nat) returns (m: Matched, wordIndex: nat)
    requires start <= |words|
    ensures (m, wordIndex) == MatchArgs(args, fit, words, start, [])
  {
    var values: seq<Value> := [];
    wordIndex := start;
    var i := 0;
    while i < |args|
      invariant 0 <= i <= |args| && wordIndex <= |words|
      invariant MatchArgs(args, fit, words, start, []) == MatchArgs(args[i..], fit, words, wordIndex, values)
    {
      assert args[i..][0] == args[i] && args[i..][1..] == args[i + 1..];
      if wordIndex == |words| { return Matched(Incomplete, values), wordIndex; }
      var x;
      if args[i].Multiple? {
        x := MatchMultiple(args[i].cmds, fit, words[wordIndex]);
      } else {
        x := MatchArg(args[i], fit, words[wordIndex]);
      }
      if x.rv != MatchOk { return Matched(x.rv, values), wordIndex; }
      if x.values != [] && |values| >= CMD_ARGC_MAX { return Matched(ExceedArgcMax, values), wordIndex; }
      values := values + x.values;
      wordIndex := wordIndex + 1;
      i := i + 1;
    }
    m := Matched(MatchOk, values);
  }

  /** Reads clauses until the words run out.  A word's bit in the keyword mask is modelled as
      membership in the set of keywords present, which is exact for up to 31 alternatives. */
  method ReadKeywords(alts: seq<Alt>, fit: Fit, words: seq<string>, start: nat) returns (r: ReadResult)
    requires start <= |words| && |alts| <= 31
    ensures r == Read(alts, fit, words, start, map[])
  {
    var present: Present, wordIndex := map[], start;
    while wordIndex < |words|
      invariant wordIndex <= |words|
      invariant Read(alts, fit, words, start, map[]) == Read(alts, fit, words, wordIndex, present)
      decreases |words| - wordIndex
    {
      var found := FindKeyword(alts, fit, words[wordIndex], present.Keys);
      match found {
        case Nothing => return ReadResult(NoMatch, present, wordIndex);
        case Unclear => return ReadResult(Ambiguous, present, wordIndex);
        case Chosen(k) =>
          MatchArgsBounds(alts[k].args, fit, words, wordIndex + 1, []);
          var m, next := ReadArguments(alts[k].args, fit, words, wordIndex + 1);
          present := present[k := m.values];
          wordIndex := next;
          if m.rv != MatchOk { return ReadResult(m.rv, present, wordIndex); }
      }
    }
    r := ReadResult(MatchOk, present, wordIndex);
  }

  /** Pushes values until CMD_ARGC_MAX arguments are there. */
  method PushAll(argv: seq<Value>, values: seq<Value>) returns (argv': seq<Value>, ok: bool)
    requires |argv| <= CMD_ARGC_MAX
    ensures |argv| <= |argv'| <= CMD_ARGC_MAX
    ensures ok <==> |argv| + |values| <= CMD_ARGC_MAX
    ensures ok ==> argv' == argv + values
    ensures !ok ==> |argv'| == CMD_ARGC_MAX
  {
    argv', ok := argv, true;
    var j := 0;
    while j < |values|
      invariant 0 <= j <= |values| && |argv| <= |argv'| <= CMD_ARGC_MAX
      invariant ok <==> |argv| + j <= CMD_ARGC_MAX
      invariant if ok then argv' == argv + values[..j] else |argv'| == CMD_ARGC_MAX
    {
      if |argv'| >= CMD_ARGC_MAX { ok := false; } else { argv' := argv' + [values[j]]; }
      j := j + 1;
    }
  }

  /** Lays the values out alternative by alternative. */
  method BuildKeywordArgs(alts: seq<Alt>, present: Present, argv: seq<Value>) returns (rv: Rv, argv': seq<Value>)
    requires |argv| <= CMD_ARGC_MAX
    ensures rv == MatchOk || rv == ExceedArgcMax
    ensures rv == MatchOk <==> |argv| + |Layout(alts, 0, present)| <= CMD_ARGC_MAX
    ensures rv == MatchOk ==> argv' == argv + Layout(alts, 0, present)
  {
    hide Row;
    rv, argv' := MatchOk, argv;
    var i := 0;
    while i < |alts|
      invariant 0 <= i <= |alts| && |argv| <= |argv'| <= CMD_ARGC_MAX
      invariant rv == MatchOk || rv == ExceedArgcMax
      invariant if rv == MatchOk then argv' + Layout(alts, i, present) == argv + Layout(alts, 0, present)
                else |argv| + |Layout(alts, 0, present)| > CMD_ARGC_MAX
    {
      var row := Row(alts[i], i, present);
      ConcatAssoc(argv', row, Layout(alts, i + 1, present));
      var ok;
      argv', ok := PushAll(argv', row);
      if !ok { rv := ExceedArgcMax; }
      i := i + 1;
    }
  }

  /** Matches a keyword group against the rest of a line.  A successful match appends one row
      for each alternative, in the group's order and at indices that depend on the group only. */
  method MatchKeyword(alts: seq<Alt>, fit: Fit, words: seq<string>, start: nat, argv: seq<Value>)
      returns (rv: Rv, argv': seq<Value>, wordIndex: nat)
    requires start <= |words| && |alts| <= 31 && |argv| <= CMD_ARGC_MAX
    ensures rv == MatchOk <==>
              Read(alts, fit, words, start, map[]).rv == MatchOk && |argv| + Offset(alts, 0, |alts|) <= CMD_ARGC_MAX
    ensures rv == MatchOk ==>
              && wordIndex == |words| && |argv'| == |argv| + Offset(alts, 0, |alts|)
              && argv' == argv + Layout(alts, 0, Read(alts, fit, words, start, map[]).present)
  {
    var read := ReadKeywords(alts, fit, words, start);
    ReadCompletes(alts, fit, words, start, map[]);
    if read.rv == MatchOk { LayoutLength(alts, read.present, 0); }
    var built;
    built, argv' := BuildKeywordArgs(alts, read.present, argv);
    rv := if read.rv == MatchOk then built else read.rv;
    wordIndex := read.next;
  }
}
