/** Route maps of lib/routemap.c: ordered clauses of match and set rules, and the interpreter
    route_map_apply with its next, goto and call policies and its static recursion counter. */
module RouteMaps {

  const RMAP_RECURSION_LIMIT := 10

  import opened Types

  datatype MapType = RmapPermit | RmapDeny | RmapAny

  datatype Result = RmapMatch | RmapDenyMatch | RmapNoMatch | RmapError | RmapOkay

  datatype ExitPolicy = RmapExit | RmapGoto | RmapNext

  /** A match or set rule: which command it was made by, and its effect on the route. */
  datatype Rule<!O> = Rule(cmd: string, arg: Option<string>, apply: O -> (Result, O))

  datatype Clause<!O> = Clause(
    pref: int, kind: MapType, exit: ExitPolicy, nextPref: int, call: Option<string>,
    matches: seq<Rule<O>>, sets: seq<Rule<O>>)

  datatype NamedMap<!O> = NamedMap(name: string, clauses: seq<Clause<O>>)

  // ----- The documented matrix, read recursively -----

  /** All match rules must match; the first that does not gives the answer. */
  function MatchAll<O>(rules: seq<Rule<O>>, o: O): (Result, O) {
    if rules == [] then (RmapMatch, o)
    else
      var (r, o') := rules[0].apply(o);
      if r != RmapMatch then (r, o') else MatchAll(rules[1..], o')
  }

  /** All set rules run; the last one's answer replaces `r`. */
  function SetAll<O>(rules: seq<Rule<O>>, r: Result, o: O): (Result, O) {
    if rules == [] then (r, o)
    else
      var (r', o') := rules[0].apply(o);
      SetAll(rules[1..], r', o')
  }

  function Lookup<O>(maps: seq<NamedMap<O>>, name: string): Option<seq<Clause<O>>> {
    if maps == [] then None
    else if maps[0].name == name then Some(maps[0].clauses)
    else Lookup(maps[1..], name)
  }

  /** The first clause at or after `from` whose preference is at least `pref`. */
  function GotoTarget<O>(clauses: seq<Clause<O>>, from: nat, pref: int): (k: nat)
    requires from <= |clauses|
    ensures from <= k <= |clauses|
    ensures k < |clauses| ==> clauses[k].pref >= pref
    ensures forall j | from <= j < k :: clauses[j].pref < pref
    decreases |clauses| - from
  {
    if from == |clauses| || clauses[from].pref >= pref then from else GotoTarget(clauses, from + 1, pref)
  }

  /** What applying a map yields: the verdict, the changed route, whether the recursion limit
      was hit, and how many map bodies were active at once. */
  datatype Outcome<!O> = Outcome(ret: Result, obj: O, hit: bool, bodies: nat)

  /** Applies `clauses` from clause i on with `depth` in the recursion counter. */
  function Run<O>(maps: seq<NamedMap<O>>, clauses: seq<Clause<O>>, i: nat, o: O, depth: int): Outcome<O>
    requires i <= |clauses| && depth <= RMAP_RECURSION_LIMIT
    decreases RMAP_RECURSION_LIMIT + 1 - depth, |clauses| - i
  {
    if i == |clauses| then Outcome(RmapDenyMatch, o, false, 1)
    else
      var c := clauses[i];
      var (m, o1) := MatchAll(c.matches, o);
      if m != RmapMatch || c.kind == RmapAny then Run(maps, clauses, i + 1, o1, depth)
      else if c.kind == RmapDeny then Outcome(RmapDenyMatch, o1, false, 1)
      else
        var (r, o2) := SetAll(c.sets, m, o1);
        var called := Call(maps, c.call, r, o2, depth);
        if called.hit || (c.call.Some? && called.ret == RmapDenyMatch) then called.(bodies := called.bodies + 1)
        else
          match c.exit
          case RmapExit => called.(bodies := called.bodies + 1)
          case RmapNext => Deeper(Run(maps, clauses, i + 1, called.obj, depth), called.bodies + 1)
          case RmapGoto =>
            var k := GotoTarget(clauses, i + 1, c.nextPref);
            if k == |clauses| then called.(bodies := called.bodies + 1)
            else Deeper(Run(maps, clauses, k, called.obj, depth), called.bodies + 1)
  }

  function Deeper<O>(x: Outcome<O>, bodies: nat): Outcome<O> {
    if x.bodies < bodies then x.(bodies := bodies) else x
  }

  /** The call clause: a missing target leaves the verdict as it is. */
  function Call<O>(maps: seq<NamedMap<O>>, call: Option<string>, r: Result, o: O, depth: int): Outcome<O>
    requires depth <= RMAP_RECURSION_LIMIT
    decreases RMAP_RECURSION_LIMIT + 1 - depth, 0
  {
    if call == None then Outcome(r, o, false, 0)
    else
      var target := Lookup(maps, call.value);
      if target == None then Outcome(r, o, false, 0)
      else Enter(maps, target.value, o, depth + 1)
  }

  /** Entering a map body with `depth` in the counter; past the limit the route is denied. */
  function Enter<O>(maps: seq<NamedMap<O>>, clauses: seq<Clause<O>>, o: O, depth: int): Outcome<O>
    requires depth <= RMAP_RECURSION_LIMIT + 1
    decreases RMAP_RECURSION_LIMIT + 1 - depth, |clauses| + 1
  {
    if depth > RMAP_RECURSION_LIMIT then Outcome(RmapDenyMatch, o, true, 0)
    else Run(maps, clauses, 0, o, depth)
  }

  // ----- Laws of the reading -----

  predicate Calls<O>(maps: seq<NamedMap<O>>, call: Option<string>) {
    call.Some? && Lookup(maps, call.value).Some?
  }

  lemma CallUnfolds<O>(maps: seq<NamedMap<O>>, call: Option<string>, r: Result, o: O, depth: int)
    requires depth <= RMAP_RECURSION_LIMIT
    ensures Call(maps, call, r, o, depth)
         == if !Calls(maps, call) then Outcome(r, o, false, 0)
            else if depth == RMAP_RECURSION_LIMIT then Outcome(RmapDenyMatch, o, true, 0)
            else Run(maps, Lookup(maps, call.value).value, 0, o, depth + 1)
  {
    if Calls(maps, call) {
      assert Call(maps, call, r, o, depth) == Enter(maps, Lookup(maps, call.value).value, o, depth + 1);
    }
  }

  /** A limit hit anywhere below denies the whole route. */
  lemma {:induction false} HitDenies<O>(maps: seq<NamedMap<O>>, clauses: seq<Clause<O>>, i: nat, o: O, depth: int)
    requires i <= |clauses| && depth <= RMAP_RECURSION_LIMIT
    ensures var x := Run(maps, clauses, i, o, depth); x.hit ==> x.ret == RmapDenyMatch
    decreases RMAP_RECURSION_LIMIT + 1 - depth, |clauses| - i
  {
    if i < |clauses| {
      var c := clauses[i];
      var (m, o1) := MatchAll(c.matches, o);
      var (r, o2) := SetAll(c.sets, m, o1);
      var called := Call(maps, c.call, r, o2, depth);
      CallUnfolds(maps, c.call, r, o2, depth);
      if Calls(maps, c.call) && depth < RMAP_RECURSION_LIMIT {
        HitDenies(maps, Lookup(maps, c.call.value).value, 0, o2, depth + 1);
      }
      if m != RmapMatch || c.kind == RmapAny {
        HitDenies(maps, clauses, i + 1, o1, depth);
      } else if c.exit == RmapNext {
        HitDenies(maps, clauses, i + 1, called.obj, depth);
      } else {
        HitDenies(maps, clauses, GotoTarget(clauses, i + 1, c.nextPref), called.obj, depth);
      }
    }
  }

  /** At most RMAP_RECURSION_LIMIT + 1 - depth bodies are ever active, and a hit uses them all. */
  lemma {:induction false} BodiesBounded<O>(maps: seq<NamedMap<O>>, clauses: seq<Clause<O>>, i: nat, o: O, depth: int)
    requires i <= |clauses| && depth <= RMAP_RECURSION_LIMIT
    ensures var x := Run(maps, clauses, i, o, depth);
            && 1 <= x.bodies <= RMAP_RECURSION_LIMIT + 1 - depth
            && (x.hit ==> x.bodies == RMAP_RECURSION_LIMIT + 1 - depth)
    decreases RMAP_RECURSION_LIMIT + 1 - depth, |clauses| - i
  {
    if i < |clauses| {
      var c := clauses[i];
      var (m, o1) := MatchAll(c.matches, o);
      var (r, o2) := SetAll(c.sets, m, o1);
      var called := Call(maps, c.call, r, o2, depth);
      CallUnfolds(maps, c.call, r, o2, depth);
      if Calls(maps, c.call) && depth < RMAP_RECURSION_LIMIT {
        BodiesBounded(maps, Lookup(maps, c.call.value).value, 0, o2, depth + 1);
      }
      if m != RmapMatch || c.kind == RmapAny {
        BodiesBounded(maps, clauses, i + 1, o1, depth);
      } else if c.exit == RmapNext {
        BodiesBounded(maps, clauses, i + 1, called.obj, depth);
      } else {
        BodiesBounded(maps, clauses, GotoTarget(clauses, i + 1, c.nextPref), called.obj, depth);
      }
    }
  }

  /** The limit never changes a verdict, it only replaces one by a denial: two runs that do
      not hit it agree whatever the counter held. */
  lemma {:induction false} LimitOnlyDenies<O>(
      maps: seq<NamedMap<O>>, clauses: seq<Clause<O>>, i: nat, o: O, depth: int, depth': int)
    requires i <= |clauses| && depth <= depth' <= RMAP_RECURSION_LIMIT
    requires !Run(maps, clauses, i, o, depth').hit
    ensures Run(maps, clauses, i, o, depth) == Run(maps, clauses, i, o, depth')
    decreases RMAP_RECURSION_LIMIT + 1 - depth', |clauses| - i
  {
    if i < |clauses| {
      var c := clauses[i];
      var (m, o1) := MatchAll(c.matches, o);
      if m != RmapMatch || c.kind == RmapAny {
        LimitOnlyDenies(maps, clauses, i + 1, o1, depth, depth');
      } else if c.kind == RmapPermit {
        var (r, o2) := SetAll(c.sets, m, o1);
        var called := Call(maps, c.call, r, o2, depth');
        CallUnfolds(maps, c.call, r, o2, depth);
        CallUnfolds(maps, c.call, r, o2, depth');
        if Calls(maps, c.call) {
          LimitOnlyDenies(maps, Lookup(maps, c.call.value).value, 0, o2, depth + 1, depth' + 1);
        }
        assert called == Call(maps, c.call, r, o2, depth);
        if !(c.call.Some? && called.ret == RmapDenyMatch) {
          var k := GotoTarget(clauses, i + 1, c.nextPref);
          if c.exit == RmapNext {
            LimitOnlyDenies(maps, clauses, i + 1, called.obj, depth, depth');
          } else if c.exit == RmapGoto && k < |clauses| {
            LimitOnlyDenies(maps, clauses, k, called.obj, depth, depth');
          }
        }
      }
    }
  }

  // ----- The matrix, clause kind by clause kind -----

  /** The route after the first j rules have been applied to it one by one. */
  function Stage<O>(rules: seq<Rule<O>>, o: O, j: nat): O
    requires j <= |rules|
  {
    if j == 0 then o else rules[j - 1].apply(Stage(rules, o, j - 1)).1
  }

  /** Rule j's answer on the route as the rules before it left it. */
  function Answer<O>(rules: seq<Rule<O>>, o: O, j: nat): Result
    requires j < |rules|
  {
    rules[j].apply(Stage(rules, o, j)).0
  }

  lemma {:induction false} StageShift<O>(rules: seq<Rule<O>>, o: O, j: nat)
    requires 0 < |rules| && j < |rules|
    ensures Stage(rules, o, j + 1) == Stage(rules[1..], rules[0].apply(o).1, j)
  {
    if j > 0 { StageShift(rules, o, j - 1); }
  }

  /** Match rules match when each does on the route the others before it left; the first that does
      not match gives the answer and the route. */
  lemma {:induction false} MatchAllMeans<O>(rules: seq<Rule<O>>, o: O)
    ensures (forall j | 0 <= j < |rules| :: Answer(rules, o, j) == RmapMatch) ==>
              MatchAll(rules, o) == (RmapMatch, Stage(rules, o, |rules|))
    ensures forall k | 0 <= k < |rules| && Answer(rules, o, k) != RmapMatch
                       && (forall j | 0 <= j < k :: Answer(rules, o, j) == RmapMatch) ::
              MatchAll(rules, o) == (Answer(rules, o, k), Stage(rules, o, k + 1))
    decreases |rules|
  {
    if rules != [] {
      var rest, o' := rules[1..], rules[0].apply(o).1;
      forall j | 0 <= j < |rest| ensures Answer(rest, o', j) == Answer(rules, o, j + 1) { StageShift(rules, o, j); }
      forall j | 0 <= j < |rules| ensures Stage(rules, o, j + 1) == Stage(rest, o', j) { StageShift(rules, o, j); }
      assert Stage(rules, o, 0) == o;
      MatchAllMeans(rest, o');
      if forall j | 0 <= j < |rules| :: Answer(rules, o, j) == RmapMatch {
        assert Answer(rules, o, 0) == RmapMatch;
      }
      forall k | 0 <= k < |rules| && Answer(rules, o, k) != RmapMatch
                 && (forall j | 0 <= j < k :: Answer(rules, o, j) == RmapMatch)
        ensures MatchAll(rules, o) == (Answer(rules, o, k), Stage(rules, o, k + 1))
      {
        if k > 0 {
          assert Answer(rules, o, 0) == RmapMatch && Answer(rest, o', k - 1) != RmapMatch;
          assert forall j | 0 <= j < k - 1 :: Answer(rest, o', j) == Answer(rules, o, j + 1) == RmapMatch;
        }
      }
    }
  }

  /** Every set rule is applied, and the last one's answer is kept. */
  lemma {:induction false} SetAllMeans<O>(rules: seq<Rule<O>>, r: Result, o: O)
    ensures SetAll(rules, r, o)
         == (if rules == [] then r else Answer(rules, o, |rules| - 1), Stage(rules, o, |rules|))
    decreases |rules|
  {
    if rules != [] {
      var rest, r', o' := rules[1..], rules[0].apply(o).0, rules[0].apply(o).1;
      SetAllMeans(rest, r', o');
      StageShift(rules, o, |rest|);
      assert Stage(rules, o, 0) == o;
      if rest != [] { StageShift(rules, o, |rest| - 1); }
    }
  }

  lemma {:induction false} LookupFinds<O>(maps: seq<NamedMap<O>>, name: string)
    ensures Lookup(maps, name) == None <==> forall i | 0 <= i < |maps| :: maps[i].name != name
    ensures forall k | 0 <= k < |maps| && maps[k].name == name && (forall i | 0 <= i < k :: maps[i].name != name) ::
              Lookup(maps, name) == Some(maps[k].clauses)
  {
    if maps != [] {
      LookupFinds(maps[1..], name);
      assert forall i | 0 < i < |maps| :: maps[i] == maps[1..][i - 1];
      forall k | 0 <= k < |maps| && maps[k].name == name && (forall i | 0 <= i < k :: maps[i].name != name)
        ensures Lookup(maps, name) == Some(maps[k].clauses)
      {
        if k > 0 {
          assert maps[0].name != name && maps[1..][k - 1] == maps[k];
          assert forall i | 0 <= i < k - 1 :: maps[1..][i] == maps[i + 1];
        }
      }
    }
  }

  /** The clauses i.. below k do not match the route as it comes to them. */
  predicate NoneMatch<O>(clauses: seq<Clause<O>>, i: nat, k: nat, o: O)
    requires i <= k <= |clauses|
    decreases k - i
  {
    i == k ||
    var (m, o') := MatchAll(clauses[i].matches, o);
    m != RmapMatch && NoneMatch(clauses, i + 1, k, o')
  }

  /** The route as it comes to clause k. */
  function Arriving<O>(clauses: seq<Clause<O>>, i: nat, k: nat, o: O): O
    requires i <= k <= |clauses|
    decreases k - i
  {
    if i == k then o else Arriving(clauses, i + 1, k, MatchAll(clauses[i].matches, o).1)
  }

  /** Clause k is the first from i on that matches. */
  predicate FirstToMatch<O>(clauses: seq<Clause<O>>, i: nat, k: nat, o: O) {
    && i <= k < |clauses| && NoneMatch(clauses, i, k, o)
    && MatchAll(clauses[k].matches, Arriving(clauses, i, k, o)).0 == RmapMatch
  }

  /** The route after clause k has matched. */
  function Matching<O>(clauses: seq<Clause<O>>, i: nat, k: nat, o: O): O
    requires i <= k < |clauses|
  {
    MatchAll(clauses[k].matches, Arriving(clauses, i, k, o)).1
  }

  /** Verdict, route and whether the limit was hit. */
  function Judged<O>(x: Outcome<O>): (Result, O, bool) {
    (x.ret, x.obj, x.hit)
  }

  lemma {:induction false} SkipsUnmatched<O>(
      maps: seq<NamedMap<O>>, clauses: seq<Clause<O>>, i: nat, k: nat, o: O, depth: int)
    requires i <= k <= |clauses| && depth <= RMAP_RECURSION_LIMIT && NoneMatch(clauses, i, k, o)
    ensures Run(maps, clauses, i, o, depth) == Run(maps, clauses, k, Arriving(clauses, i, k, o), depth)
    decreases k - i
  {
    hide Run;
    if i < k {
      RunUnfolds(maps, clauses, i, o, depth);
      SkipsUnmatched(maps, clauses, i + 1, k, MatchAll(clauses[i].matches, o).1, depth);
    }
  }

  /** A map none of whose clauses matches denies. */
  lemma NoMatchDenies<O>(maps: seq<NamedMap<O>>, clauses: seq<Clause<O>>, o: O, depth: int)
    requires depth <= RMAP_RECURSION_LIMIT && NoneMatch(clauses, 0, |clauses|, o)
    ensures Judged(Run(maps, clauses, 0, o, depth)) == (RmapDenyMatch, Arriving(clauses, 0, |clauses|, o), false)
  {
    hide Run;
    SkipsUnmatched(maps, clauses, 0, |clauses|, o, depth);
    RunEnds(maps, clauses, Arriving(clauses, 0, |clauses|, o), depth);
  }

  /** A deny clause that matches first denies. */
  lemma DenyDenies<O>(maps: seq<NamedMap<O>>, clauses: seq<Clause<O>>, i: nat, k: nat, o: O, depth: int)
    requires depth <= RMAP_RECURSION_LIMIT && FirstToMatch(clauses, i, k, o) && clauses[k].kind == RmapDeny
    ensures Judged(Run(maps, clauses, i, o, depth)) == (RmapDenyMatch, Matching(clauses, i, k, o), false)
  {
    hide Run;
    SkipsUnmatched(maps, clauses, i, k, o, depth);
    RunUnfolds(maps, clauses, k, Arriving(clauses, i, k, o), depth);
  }

  /** What the exit policy of permit clause k makes of the outcome y of its sets and call. */
  ghost predicate ExitsAs<O>(maps: seq<NamedMap<O>>, clauses: seq<Clause<O>>, k: nat, depth: int,
                             y: (Result, O, bool), x: (Result, O, bool))
    requires k < |clauses| && depth <= RMAP_RECURSION_LIMIT
  {
    var c := clauses[k];
    && (c.exit == RmapExit ==> x == y)
    && (c.exit == RmapNext ==> x == Judged(Run(maps, clauses, k + 1, y.1, depth)))
    && (c.exit == RmapGoto ==>
          && (forall t | k < t < |clauses| && clauses[t].pref >= c.nextPref
                         && (forall j | k < j < t :: clauses[j].pref < c.nextPref) ::
                x == Judged(Run(maps, clauses, t, y.1, depth)))
          && ((forall j | k < j < |clauses| :: clauses[j].pref < c.nextPref) ==> x == y))
  }

  /** The outcome of a permit clause that matches first. */
  lemma FirstPermit<O>(maps: seq<NamedMap<O>>, clauses: seq<Clause<O>>, i: nat, k: nat, o: O, depth: int)
    requires depth <= RMAP_RECURSION_LIMIT && FirstToMatch(clauses, i, k, o) && clauses[k].kind == RmapPermit
    ensures var called := Called(maps, clauses[k], Matching(clauses, i, k, o), depth);
            var x := Judged(Run(maps, clauses, i, o, depth));
            if called.hit || (clauses[k].call.Some? && called.ret == RmapDenyMatch) then x == Judged(called)
            else ExitsAs(maps, clauses, k, depth, Judged(called), x)
  {
    hide Run, Called, MatchAll, ExitsAs, NextClause;
    SkipsUnmatched(maps, clauses, i, k, o, depth);
    RunUnfolds(maps, clauses, k, Arriving(clauses, i, k, o), depth);
    var called := Called(maps, clauses[k], Matching(clauses, i, k, o), depth);
    NextExits(maps, clauses, k, depth, called, Run(maps, clauses, i, o, depth));
  }

  lemma NextExits<O>(
      maps: seq<NamedMap<O>>, clauses: seq<Clause<O>>, k: nat, depth: int, called: Outcome<O>, x: Outcome<O>)
    requires k < |clauses| && depth <= RMAP_RECURSION_LIMIT
    requires match NextClause(clauses, k, called)
             case None => x == called.(bodies := called.bodies + 1)
             case Some(t) => x == Deeper(Run(maps, clauses, t, called.obj, depth), called.bodies + 1)
    ensures if called.hit || (clauses[k].call.Some? && called.ret == RmapDenyMatch) then Judged(x) == Judged(called)
            else ExitsAs(maps, clauses, k, depth, Judged(called), Judged(x))
  {
    hide Run;
  }

  /** A permit clause without a call that matches first applies its sets.  On exit they give the
      verdict, whatever clauses follow; on next the clauses after it go on with the changed route;
      on goto those from the first later one whose preference is at least the target do, or, if
      there is none, the sets give the verdict. */
  lemma PermitWithoutCall<O>(maps: seq<NamedMap<O>>, clauses: seq<Clause<O>>, i: nat, k: nat, o: O, depth: int)
    requires depth <= RMAP_RECURSION_LIMIT && FirstToMatch(clauses, i, k, o)
    requires clauses[k].kind == RmapPermit && clauses[k].call == None
    ensures var (r, o') := SetAll(clauses[k].sets, RmapMatch, Matching(clauses, i, k, o));
            ExitsAs(maps, clauses, k, depth, (r, o', false), Judged(Run(maps, clauses, i, o, depth)))
  {
    hide Run, MatchAll, SetAll, ExitsAs;
    var (r, o') := SetAll(clauses[k].sets, RmapMatch, Matching(clauses, i, k, o));
    FirstPermit(maps, clauses, i, k, o, depth);
    CallUnfolds(maps, clauses[k].call, r, o', depth);
  }

  /** A permit clause with a call applies its sets and then the called map, one level deeper.  A
      denial there denies; otherwise the called map's verdict and route take the place of the
      sets' own.  A call of a map that does not exist counts as none, unless the sets deny. */
  lemma PermitWithCall<O>(maps: seq<NamedMap<O>>, clauses: seq<Clause<O>>, i: nat, k: nat, o: O, depth: int)
    requires depth <= RMAP_RECURSION_LIMIT && FirstToMatch(clauses, i, k, o)
    requires clauses[k].kind == RmapPermit && clauses[k].call.Some?
    ensures var (r, o') := SetAll(clauses[k].sets, RmapMatch, Matching(clauses, i, k, o));
            var target := Lookup(maps, clauses[k].call.value);
            var y := if target == None then (r, o', false) else Judged(Enter(maps, target.value, o', depth + 1));
            var x := Judged(Run(maps, clauses, i, o, depth));
            if y.0 == RmapDenyMatch then x == y else ExitsAs(maps, clauses, k, depth, y, x)
  {
    hide Run, MatchAll, SetAll, ExitsAs;
    var c := clauses[k];
    var (r, o') := SetAll(c.sets, RmapMatch, Matching(clauses, i, k, o));
    FirstPermit(maps, clauses, i, k, o, depth);
    CallUnfolds(maps, c.call, r, o', depth);
    if Calls(maps, c.call) && depth < RMAP_RECURSION_LIMIT {
      HitDenies(maps, Lookup(maps, c.call.value).value, 0, o', depth + 1);
    }
  }

  // ----- When the limit is hit -----

  /** Calls from these clauses nest at most h deep, whatever route is applied. */
  predicate CallsWithin<O>(maps: seq<NamedMap<O>>, clauses: seq<Clause<O>>, h: nat)
    decreases h
  {
    forall i | 0 <= i < |clauses| && Calls(maps, clauses[i].call) ::
      h > 0 && CallsWithin(maps, Lookup(maps, clauses[i].call.value).value, h - 1)
  }

  /** A map whose calls nest no deeper than the counter leaves room for never hits the limit, so
      the counter is restored after every route. */
  lemma {:induction false} ShallowNeverHits<O>(
      maps: seq<NamedMap<O>>, clauses: seq<Clause<O>>, i: nat, o: O, depth: int, h: nat)
    requires i <= |clauses| && depth + h <= RMAP_RECURSION_LIMIT && CallsWithin(maps, clauses, h)
    ensures var x := Run(maps, clauses, i, o, depth); !x.hit && x.bodies <= h + 1
    decreases h, |clauses| - i
  {
    if i < |clauses| {
      hide Run, Call;
      var c := clauses[i];
      var (m, o1) := MatchAll(c.matches, o);
      var (r, o2) := SetAll(c.sets, RmapMatch, o1);
      RunUnfolds(maps, clauses, i, o, depth);
      CallUnfolds(maps, c.call, r, o2, depth);
      var called := Called(maps, c, o1, depth);
      if Calls(maps, c.call) { ShallowNeverHits(maps, Lookup(maps, c.call.value).value, 0, o2, depth + 1, h - 1); }
      if m != RmapMatch || c.kind == RmapAny {
        ShallowNeverHits(maps, clauses, i + 1, o1, depth, h);
      } else if c.kind == RmapPermit && NextClause(clauses, i, called).Some? {
        ShallowNeverHits(maps, clauses, NextClause(clauses, i, called).value, called.obj, depth, h);
      }
    } else {
      RunEnds(maps, clauses, o, depth);
    }
  }

  /** A run that nests no deeper than a higher counter leaves room for does not hit the limit there. */
  lemma {:induction false} RoomSuffices<O>(
      maps: seq<NamedMap<O>>, clauses: seq<Clause<O>>, i: nat, o: O, d: int, depth: int)
    requires i <= |clauses| && d <= depth <= RMAP_RECURSION_LIMIT
    requires var x := Run(maps, clauses, i, o, d); !x.hit && x.bodies <= RMAP_RECURSION_LIMIT + 1 - depth
    ensures !Run(maps, clauses, i, o, depth).hit
    decreases RMAP_RECURSION_LIMIT + 1 - depth, |clauses| - i
  {
    hide Run, Call;
    if i < |clauses| {
      var c := clauses[i];
      var (m, o1) := MatchAll(c.matches, o);
      RunUnfolds(maps, clauses, i, o, d);
      RunUnfolds(maps, clauses, i, o, depth);
      if m != RmapMatch || c.kind == RmapAny {
        RoomSuffices(maps, clauses, i + 1, o1, d, depth);
      } else if c.kind == RmapPermit {
        CalledAlike(maps, c, o1, d, depth);
        var called := Called(maps, c, o1, d);
        var next := NextClause(clauses, i, called);
        if next.Some? { RoomSuffices(maps, clauses, next.value, called.obj, d, depth); }
      }
    } else {
      RunEnds(maps, clauses, o, depth);
    }
  }

  /** The call of a permit clause comes out alike if there is room for it. */
  lemma {:induction false} CalledAlike<O>(maps: seq<NamedMap<O>>, c: Clause<O>, o: O, d: int, depth: int)
    requires d <= depth <= RMAP_RECURSION_LIMIT
    requires var x := Called(maps, c, o, d); !x.hit && x.bodies <= RMAP_RECURSION_LIMIT - depth
    ensures Called(maps, c, o, depth) == Called(maps, c, o, d)
    decreases RMAP_RECURSION_LIMIT + 1 - depth, 0
  {
    hide Run, Call;
    var (r, o2) := SetAll(c.sets, RmapMatch, o);
    CallUnfolds(maps, c.call, r, o2, d);
    CallUnfolds(maps, c.call, r, o2, depth);
    if Calls(maps, c.call) {
      var target := Lookup(maps, c.call.value).value;
      BodiesBounded(maps, target, 0, o2, d + 1);
      RoomSuffices(maps, target, 0, o2, d + 1, depth + 1);
      LimitOnlyDenies(maps, target, 0, o2, d + 1, depth + 1);
    }
  }

  /** Given a lower counter at which a route does not hit the limit, it does at a higher one if
      and only if it nests deeper than that one leaves room for. */
  lemma HitExactly<O>(maps: seq<NamedMap<O>>, clauses: seq<Clause<O>>, i: nat, o: O, d: int, depth: int)
    requires i <= |clauses| && d <= depth <= RMAP_RECURSION_LIMIT && !Run(maps, clauses, i, o, d).hit
    ensures Run(maps, clauses, i, o, depth).hit
            <==> Run(maps, clauses, i, o, d).bodies > RMAP_RECURSION_LIMIT + 1 - depth
  {
    hide Run;
    if Run(maps, clauses, i, o, depth).hit {
      if Run(maps, clauses, i, o, d).bodies <= RMAP_RECURSION_LIMIT + 1 - depth {
        RoomSuffices(maps, clauses, i, o, d, depth);
      }
    } else {
      LimitOnlyDenies(maps, clauses, i, o, d, depth);
      BodiesBounded(maps, clauses, i, o, depth);
    }
  }

  // ----- The counter is not restored after a limit hit -----

  /** A map whose one clause matches everything and calls itself. */
  function SelfCalling<O>(name: string): NamedMap<O> {
    NamedMap(name, [Clause(1, RmapPermit, RmapExit, 0, Some(name), [], [])])
  }

  lemma {:induction false} SelfCallingHits<O>(name: string, o: O, depth: int)
    requires depth <= RMAP_RECURSION_LIMIT
    ensures var map_ := SelfCalling<O>(name);
            var x := Run([map_], map_.clauses, 0, o, depth);
            x.hit && x.bodies == RMAP_RECURSION_LIMIT + 1 - depth
    decreases RMAP_RECURSION_LIMIT - depth
  {
    var m := SelfCalling<O>(name);
    assert Lookup([m], name) == Some(m.clauses);
    var c := m.clauses[0];
    assert c == Clause(1, RmapPermit, RmapExit, 0, Some(name), [], []);
    assert MatchAll(c.matches, o) == (RmapMatch, o);
    assert SetAll(c.sets, RmapMatch, o) == (RmapMatch, o);
    if depth < RMAP_RECURSION_LIMIT {
      SelfCallingHits<O>(name, o, depth + 1);
    }
    assert Call([m], c.call, RmapMatch, o, depth) == Enter([m], m.clauses, o, depth + 1);
  }

  /** No set of maps can have more than RMAP_RECURSION_LIMIT + 1 bodies active exactly when
      the counter does not start below zero. */
  lemma CapHoldsIffCounterNonNegative<O>(o: O, depth: int)
    requires depth <= RMAP_RECURSION_LIMIT
    ensures depth >= 0 <==>
            forall maps: seq<NamedMap<O>>, clauses: seq<Clause<O>> ::
              Run(maps, clauses, 0, o, depth).bodies <= RMAP_RECURSION_LIMIT + 1
  {
    if depth >= 0 {
      forall maps: seq<NamedMap<O>>, clauses: seq<Clause<O>>
        ensures Run(maps, clauses, 0, o, depth).bodies <= RMAP_RECURSION_LIMIT + 1
      {
        BodiesBounded(maps, clauses, 0, o, depth);
      }
    } else {
      SelfCallingHits<O>("loop", o, depth);
      var m := SelfCalling<O>("loop");
      assert Run([m], m.clauses, 0, o, depth).bodies > RMAP_RECURSION_LIMIT + 1;
    }
  }

  // ----- The interpreter -----

  class Interpreter<!O> {
    var maps: seq<NamedMap<O>>
    var recursion: int
    ghost var active: nat   // map bodies under way
    ghost var peak: nat     // the most there ever were at once

    constructor (maps: seq<NamedMap<O>>)
      ensures this.maps == maps && recursion == 0 && active == peak == 0
    {
      this.maps := maps;
      recursion := 0;
      active, peak := 0, 0;
    }

    method LookupByName(name: string) returns (r: Option<seq<Clause<O>>>)
      ensures r == Lookup(maps, name)
    {
      var i := 0;
      while i < |maps|
        invariant 0 <= i <= |maps| && Lookup(maps, name) == Lookup(maps[i..], name)
      {
        if maps[i].name == name { return Some(maps[i].clauses); }
        assert maps[i..][1..] == maps[i + 1..];
        i := i + 1;
      }
      return None;
    }

    /** Tries the match rules in turn. */
    method ApplyMatch(rules: seq<Rule<O>>, o: O) returns (r: Result, o': O)
      ensures (r, o') == MatchAll(rules, o)
    {
      r, o' := RmapNoMatch, o;
      if rules == [] { return RmapMatch, o; }
      var i := 0;
      while i < |rules|
        invariant 0 <= i <= |rules| && (i > 0 ==> r == RmapMatch)
        invariant MatchAll(rules, o) == MatchAll(rules[i..], o')
      {
        var x := rules[i].apply(o');
        assert rules[i..][0] == rules[i] && rules[i..][1..] == rules[i + 1..];
        r, o' := x.0, x.1;
        if r != RmapMatch { return; }
        i := i + 1;
      }
    }

    method ApplySets(rules: seq<Rule<O>>, ret: Result, o: O) returns (r: Result, o': O)
      ensures (r, o') == SetAll(rules, ret, o)
    {
      r, o' := ret, o;
      var i := 0;
      while i < |rules|
        invariant 0 <= i <= |rules|
        invariant SetAll(rules, ret, o) == SetAll(rules[i..], r, o')
      {
        var x := rules[i].apply(o');
        assert rules[i..][0] == rules[i] && rules[i..][1..] == rules[i + 1..];
        r, o' := x.0, x.1;
        i := i + 1;
      }
    }

    /** Moves past the clauses below `pref`, as a goto does. */
    method SkipTo(clauses: seq<Clause<O>>, from: nat, pref: int) returns (next: nat)
      requires from <= |clauses|
      ensures next == GotoTarget(clauses, from, pref)
    {
      next := from;
      while next < |clauses| && clauses[next].pref < pref
        invariant from <= next <= |clauses|
        invariant GotoTarget(clauses, from, pref) == GotoTarget(clauses, next, pref)
      {
        next := next + 1;
      }
    }

    /** Jumps to the called map, if there is one, one level deeper. */
    method ApplyCall(call: Option<string>, ret: Result, o: O) returns (ret': Result, o': O)
      requires recursion <= RMAP_RECURSION_LIMIT && active <= peak
      modifies `recursion, `active, `peak
      ensures var x := Call(maps, call, ret, o, old(recursion));
              && ret' == x.ret && o' == x.obj && (x.hit ==> ret' == RmapDenyMatch && call.Some?)
              && recursion == (if x.hit then old(recursion) - (RMAP_RECURSION_LIMIT + 1) else old(recursion))
              && active == old(active) && peak == Max(old(peak), active + x.bodies)
      decreases RMAP_RECURSION_LIMIT + 1 - recursion, 0
    {
      CallUnfolds(maps, call, ret, o, recursion);
      ret', o' := ret, o;
      if call.Some? {
        var nextrm := LookupByName(call.value);
        if nextrm.Some? {
          recursion := recursion + 1;
          if recursion <= RMAP_RECURSION_LIMIT { HitDenies(maps, nextrm.value, 0, o, recursion); }
          ret', o' := Apply(nextrm, o');
          recursion := recursion - 1;
        }
      }
    }

    /** A permit clause that matched: sets, call and where to go on. */
    method ApplyPermit(clauses: seq<Clause<O>>, index: nat, o: O) returns (ret: Result, o': O, next: Option<nat>)
      requires index < |clauses| && recursion <= RMAP_RECURSION_LIMIT && active <= peak
      modifies `recursion, `active, `peak
      ensures var x := Called(maps, clauses[index], o, old(recursion));
              && ret == x.ret && o' == x.obj && next == NextClause(clauses, index, x)
              && recursion == (if x.hit then old(recursion) - (RMAP_RECURSION_LIMIT + 1) else old(recursion))
              && active == old(active) && peak == Max(old(peak), active + x.bodies)
      decreases RMAP_RECURSION_LIMIT + 1 - recursion, 1
    {
      hide Call, Run;
      var c := clauses[index];
      ret, o' := ApplySets(c.sets, RmapMatch, o);
      ret, o' := ApplyCall(c.call, ret, o');
      if c.call.Some? && ret == RmapDenyMatch { return ret, o', None; }
      match c.exit {
        case RmapExit => next := None;
        case RmapNext => next := Some(index + 1);
        case RmapGoto =>
          var k := SkipTo(clauses, index + 1, c.nextPref);
          next := if k == |clauses| then None else Some(k);
      }
    }

    /** Applies the clauses of a map whose body is already counted as active. */
    method ApplyBody(clauses: seq<Clause<O>>, o: O) returns (ret: Result, o': O)
      requires recursion <= RMAP_RECURSION_LIMIT && 0 < active <= peak
      modifies `recursion, `active, `peak
      ensures var x := Run(maps, clauses, 0, o, old(recursion));
              && ret == x.ret && o' == x.obj
              && recursion == (if x.hit then old(recursion) - (RMAP_RECURSION_LIMIT + 1) else old(recursion))
              && active == old(active) && peak == Max(old(peak), active - 1 + x.bodies)
      decreases RMAP_RECURSION_LIMIT + 1 - recursion, 2
    {
      hide Run, Called, MatchAll, NextClause;
      o' := o;
      var index := 0;
      while index < |clauses|
        invariant 0 <= index <= |clauses| && recursion == old(recursion) && active == old(active) <= peak
        invariant Credited(Run(maps, clauses, 0, o, recursion), old(peak), active - 1)
               == Credited(Run(maps, clauses, index, o', recursion), peak, active - 1)
        decreases |clauses| - index
      {
        var c := clauses[index];
        RunUnfolds(maps, clauses, index, o', recursion);
        ret, o' := ApplyMatch(c.matches, o');
        if ret == RmapMatch {
          if c.kind == RmapPermit {
            var next;
            ret, o', next := ApplyPermit(clauses, index, o');
            if next == None { return; }
            index := next.value - 1;
          } else if c.kind == RmapDeny {
            return RmapDenyMatch, o';
          }
        }
        index := index + 1;
      }
      RunEnds(maps, clauses, o', recursion);
      ret := RmapDenyMatch;
    }

    /** Applies a map to a route.  The verdict and the route are those of the matrix.  The
        counter is restored unless the limit was hit; after a hit it ends
        RMAP_RECURSION_LIMIT + 1 below where it started.  The bodies active at once are as many
        as in the reading, so the counter bounds them. */
    method Apply(target: Option<seq<Clause<O>>>, o: O) returns (ret: Result, o': O)
      requires recursion <= RMAP_RECURSION_LIMIT + 1 && active <= peak
      modifies `recursion, `active, `peak
      ensures target.Some? ==>
                var x := Enter(maps, target.value, o, old(recursion));
                && ret == x.ret && o' == x.obj
                && recursion == (if x.hit then old(recursion) - (RMAP_RECURSION_LIMIT + 1) else old(recursion))
                && peak == Max(old(peak), active + x.bodies)
      ensures target == None && old(recursion) <= RMAP_RECURSION_LIMIT ==>
                ret == RmapDenyMatch && o' == o && recursion == old(recursion)
      ensures target == None && old(recursion) > RMAP_RECURSION_LIMIT ==>
                ret == RmapDenyMatch && o' == o && recursion == 0
      ensures active == old(active)
      ensures peak <= Max(old(peak), active + RMAP_RECURSION_LIMIT + 1 - old(recursion))
      decreases RMAP_RECURSION_LIMIT + 1 - recursion, 3
    {
      hide Run;
      o' := o;
      if recursion > RMAP_RECURSION_LIMIT {
        recursion := 0;
        return RmapDenyMatch, o';
      }
      if target == None { return RmapDenyMatch, o'; }
      BodiesBounded(maps, target.value, 0, o, recursion);
      active := active + 1;
      peak := Max(peak, active);
      ret, o' := ApplyBody(target.value, o);
      active := active - 1;
    }

    /** A process that applies one route after the other: each limit hit leaves the counter
        another RMAP_RECURSION_LIMIT + 1 lower, so later routes may nest that much deeper. */
    method ApplyAll(jobs: seq<Job<O>>) returns (outcomes: seq<(Result, O)>)
      requires recursion <= 0 && active <= peak
      modifies `recursion, `active, `peak
      ensures outcomes == Verdicts(maps, jobs, old(recursion))
      ensures recursion == old(recursion) - (RMAP_RECURSION_LIMIT + 1) * Hits(maps, jobs, old(recursion))
      ensures active == old(active)
    {
      hide Enter;
      outcomes := [];
      var i := 0;
      while i < |jobs|
        invariant 0 <= i <= |jobs| && recursion <= old(recursion) && active == old(active) <= peak
        invariant outcomes + Verdicts(maps, jobs[i..], recursion) == Verdicts(maps, jobs, old(recursion))
        invariant recursion == old(recursion)
          - (RMAP_RECURSION_LIMIT + 1) * (Hits(maps, jobs, old(recursion)) - Hits(maps, jobs[i..], recursion))
      {
        assert jobs[i..][1..] == jobs[i + 1..];
        var ret, o := Apply(Some(jobs[i].clauses), jobs[i].obj);
        outcomes := outcomes + [(ret, o)];
        i := i + 1;
      }
    }
  }

  function Max(a: int, b: int): int {
    if a < b then b else a
  }

  /** A route to be judged by a map. */
  datatype Job<!O> = Job(clauses: seq<Clause<O>>, obj: O)

  /** The counter after a job. */
  function Settled<O>(maps: seq<NamedMap<O>>, job: Job<O>, counter: int): int
    requires counter <= 0
  {
    if Enter(maps, job.clauses, job.obj, counter).hit then counter - (RMAP_RECURSION_LIMIT + 1) else counter
  }

  /** The verdicts and routes of the jobs, done in order from the given counter. */
  function Verdicts<O>(maps: seq<NamedMap<O>>, jobs: seq<Job<O>>, counter: int): seq<(Result, O)>
    requires counter <= 0
    decreases |jobs|
  {
    if jobs == [] then []
    else
      var x := Enter(maps, jobs[0].clauses, jobs[0].obj, counter);
      [(x.ret, x.obj)] + Verdicts(maps, jobs[1..], Settled(maps, jobs[0], counter))
  }

  /** How many of the jobs, done in order from the given counter, hit the limit. */
  function Hits<O>(maps: seq<NamedMap<O>>, jobs: seq<Job<O>>, counter: int): nat
    requires counter <= 0
    decreases |jobs|
  {
    if jobs == [] then 0
    else if Enter(maps, jobs[0].clauses, jobs[0].obj, counter).hit
      then 1 + Hits(maps, jobs[1..], counter - (RMAP_RECURSION_LIMIT + 1))
      else Hits(maps, jobs[1..], counter)
  }

  /** The sets and the call of a permit clause. */
  function Called<O>(maps: seq<NamedMap<O>>, c: Clause<O>, o: O, depth: int): Outcome<O>
    requires depth <= RMAP_RECURSION_LIMIT
  {
    var (r, o2) := SetAll(c.sets, RmapMatch, o);
    Call(maps, c.call, r, o2, depth)
  }

  /** The clause to go on with after a permit clause, if any. */
  function NextClause<O>(clauses: seq<Clause<O>>, i: nat, called: Outcome<O>): (next: Option<nat>)
    requires i < |clauses|
    ensures next.Some? ==> i < next.value <= |clauses| && !called.hit
  {
    var c := clauses[i];
    if called.hit || (c.call.Some? && called.ret == RmapDenyMatch) then None
    else
      match c.exit
      case RmapExit => None
      case RmapNext => Some(i + 1)
      case RmapGoto =>
        var k := GotoTarget(clauses, i + 1, c.nextPref);
        if k == |clauses| then None else Some(k)
  }

  /** One clause of the reading. */
  lemma RunUnfolds<O>(maps: seq<NamedMap<O>>, clauses: seq<Clause<O>>, i: nat, o: O, depth: int)
    requires i < |clauses| && depth <= RMAP_RECURSION_LIMIT
    ensures var c := clauses[i];
            var (m, o1) := MatchAll(c.matches, o);
            var called := Called(maps, c, o1, depth);
            var x := Run(maps, clauses, i, o, depth);
            if m != RmapMatch || c.kind == RmapAny then x == Run(maps, clauses, i + 1, o1, depth)
            else if c.kind == RmapDeny then x == Outcome(RmapDenyMatch, o1, false, 1)
            else match NextClause(clauses, i, called)
                 case None => x == called.(bodies := called.bodies + 1)
                 case Some(k) => x == Deeper(Run(maps, clauses, k, called.obj, depth), called.bodies + 1)
  {
    hide Call;
  }

  lemma RunEnds<O>(maps: seq<NamedMap<O>>, clauses: seq<Clause<O>>, o: O, depth: int)
    requires depth <= RMAP_RECURSION_LIMIT
    ensures Run(maps, clauses, |clauses|, o, depth) == Outcome(RmapDenyMatch, o, false, 1)
  {
  }

  /** An outcome together with the peak it leads to from `base` other bodies. */
  function Credited<O>(x: Outcome<O>, peak: int, base: int): (Result, O, bool, int) {
    (x.ret, x.obj, x.hit, Max(peak, base + x.bodies))
  }

  // ----- Editing a map -----

  predicate Ascending<O>(clauses: seq<Clause<O>>) {
    forall i, j | 0 <= i < j < |clauses| :: clauses[i].pref < clauses[j].pref
  }

  function Fresh<O>(kind: MapType, pref: int): Clause<O> {
    Clause(pref, kind, RmapExit, 0, None, [], [])
  }

  function Without<O>(rules: seq<Rule<O>>, cmd: string): seq<Rule<O>> {
    if rules == [] then []
    else if rules[0].cmd == cmd then Without(rules[1..], cmd)
    else [rules[0]] + Without(rules[1..], cmd)
  }

  predicate OnePerCommand<O>(rules: seq<Rule<O>>) {
    forall i, j | 0 <= i < j < |rules| :: rules[i].cmd != rules[j].cmd
  }

  lemma {:induction false} WithoutKeepsOthers<O>(rules: seq<Rule<O>>, cmd: string)
    requires OnePerCommand(rules)
    ensures var w := Without(rules, cmd);
            && OnePerCommand(w) && (forall i | 0 <= i < |w| :: w[i].cmd != cmd && w[i] in rules)
            && (forall r | r in rules && r.cmd != cmd :: r in w)
  {
    if rules != [] {
      WithoutKeepsOthers(rules[1..], cmd);
      forall r | r in rules && r.cmd != cmd ensures r in Without(rules, cmd) {
        if r != rules[0] { assert r in rules[1..]; }
      }
    }
  }

  lemma {:induction false} WithoutPrefix<O>(rules: seq<Rule<O>>, x: Rule<O>, cmd: string)
    ensures Without(rules + [x], cmd) == Without(rules, cmd) + if x.cmd == cmd then [] else [x]
  {
    if rules == [] {
      assert rules + [x] == [x] && [x][1..] == [];
    } else {
      assert (rules + [x])[1..] == rules[1..] + [x];
      WithoutPrefix(rules[1..], x, cmd);
    }
  }

  /** Deletes every rule made by `cmd`, walking the list once. */
  method RemoveRules<O>(rules: seq<Rule<O>>, cmd: string) returns (r: seq<Rule<O>>, removed: bool)
    ensures r == Without(rules, cmd)
    ensures removed <==> exists i | 0 <= i < |rules| :: rules[i].cmd == cmd
  {
    r, removed := [], false;
    var i := 0;
    while i < |rules|
      invariant 0 <= i <= |rules| && r == Without(rules[..i], cmd)
      invariant removed <==> exists j | 0 <= j < i :: rules[j].cmd == cmd
    {
      assert rules[..i + 1] == rules[..i] + [rules[i]];
      WithoutPrefix(rules[..i], rules[i], cmd);
      if rules[i].cmd == cmd { removed := true; } else { r := r + [rules[i]]; }
      i := i + 1;
    }
    assert rules[..i] == rules;
  }

  datatype AddStatus = Added | Replaced | RuleMissing | CompileError

  /** Adds a match or set rule: rules made by the same command are removed and the new one is
      appended, so a list keeps one rule for each command. */
  method AddRule<O>(rules: seq<Rule<O>>, installed: set<string>,
                    compile: (string, Option<string>) -> Option<O -> (Result, O)>,
                    cmd: string, arg: Option<string>) returns (r: seq<Rule<O>>, st: AddStatus)
    requires OnePerCommand(rules)
    ensures st == RuleMissing <==> cmd !in installed
    ensures st == CompileError <==> cmd in installed && compile(cmd, arg) == None
    ensures st == RuleMissing || st == CompileError ==> r == rules
    ensures st == Added || st == Replaced ==>
              r == Without(rules, cmd) + [Rule(cmd, arg, compile(cmd, arg).value)]
    ensures st == Replaced ==> exists i | 0 <= i < |rules| :: rules[i].cmd == cmd
    ensures st == Added ==> forall i | 0 <= i < |rules| :: rules[i].cmd != cmd
    ensures OnePerCommand(r)
  {
    r := rules;
    if cmd !in installed { return r, RuleMissing; }
    var compiled := compile(cmd, arg);
    if compiled.None? { return r, CompileError; }
    var replaced;
    r, replaced := RemoveRules(rules, cmd);
    WithoutKeepsOthers(rules, cmd);
    r := r + [Rule(cmd, arg, compiled.value)];
    st := if replaced then Replaced else Added;
  }

  /** Where a clause was deleted is where one of its preference is added again. */
  lemma RemovedSlot<O>(clauses: seq<Clause<O>>, at: nat, k: nat, pref: int)
    requires Ascending(clauses) && at < |clauses| && clauses[at].pref == pref
    requires var rest := clauses[..at] + clauses[at + 1..];
             && k <= |rest| && (forall j | 0 <= j < k :: rest[j].pref < pref)
             && (k < |rest| ==> rest[k].pref >= pref)
    ensures k == at
    ensures var rest := clauses[..at] + clauses[at + 1..]; rest[..k] == clauses[..k] && rest[k..] == clauses[k + 1..]
  {
    var rest := clauses[..at] + clauses[at + 1..];
    assert forall j | 0 <= j < at :: rest[j] == clauses[j];
    assert at < |rest| ==> rest[at] == clauses[at + 1];
  }

  lemma ReplaceAscends<O>(clauses: seq<Clause<O>>, k: nat, c: Clause<O>)
    requires Ascending(clauses) && k < |clauses| && c.pref == clauses[k].pref
    ensures Ascending(clauses[..k] + [c] + clauses[k + 1..])
  {
    assert clauses[..k] + [c] + clauses[k + 1..] == clauses[k := c];
  }

  lemma InsertAscends<O>(clauses: seq<Clause<O>>, k: nat, c: Clause<O>)
    requires Ascending(clauses) && k <= |clauses|
    requires forall j | 0 <= j < k :: clauses[j].pref < c.pref
    requires forall j | k <= j < |clauses| :: clauses[j].pref > c.pref
    ensures Ascending(clauses[..k] + [c] + clauses[k..])
  {
  }

  class RouteMap<!O> {
    var clauses: seq<Clause<O>>

    constructor ()
      ensures clauses == []
    {
      clauses := [];
    }

    /** The first clause of this preference and, unless `kind` is RmapAny, of this type. */
    method IndexLookup(kind: MapType, pref: int) returns (k: nat)
      ensures k <= |clauses|
      ensures k < |clauses| ==> clauses[k].pref == pref && (kind == RmapAny || clauses[k].kind == kind)
      ensures forall j | 0 <= j < k :: !(clauses[j].pref == pref && (kind == RmapAny || clauses[j].kind == kind))
    {
      k := 0;
      while k < |clauses|
        invariant 0 <= k <= |clauses|
        invariant forall j | 0 <= j < k :: !(clauses[j].pref == pref && (kind == RmapAny || clauses[j].kind == kind))
      {
        if (clauses[k].kind == kind || kind == RmapAny) && clauses[k].pref == pref { return; }
        k := k + 1;
      }
    }

    /** Inserts a fresh clause before the first one whose preference is not smaller. */
    method IndexAdd(kind: MapType, pref: int) returns (k: nat)
      modifies this
      ensures k <= |old(clauses)|
      ensures clauses == old(clauses)[..k] + [Fresh(kind, pref)] + old(clauses)[k..]
      ensures forall j | 0 <= j < k :: old(clauses)[j].pref < pref
      ensures k < |old(clauses)| ==> old(clauses)[k].pref >= pref
    {
      k := 0;
      while k < |clauses|
        invariant 0 <= k <= |clauses| && clauses == old(clauses)
        invariant forall j | 0 <= j < k :: clauses[j].pref < pref
      {
        if clauses[k].pref >= pref { break; }
        k := k + 1;
      }
      clauses := clauses[..k] + [Fresh(kind, pref)] + clauses[k..];
    }

    /** Gets the clause of a preference, making it afresh if it is missing or of the other
        type.  Preferences stay strictly ascending and no other clause changes. */
    method IndexGet(kind: MapType, pref: int) returns (k: nat)
      requires Ascending(clauses)
      modifies this
      ensures Ascending(clauses)
      ensures k < |clauses| && clauses[k].pref == pref && clauses[k].kind == kind
      ensures k <= |old(clauses)| && clauses[..k] == old(clauses)[..k]
      ensures if k < |old(clauses)| && old(clauses)[k].pref == pref
              then clauses[k + 1..] == old(clauses)[k + 1..]
                   && clauses[k] == if old(clauses)[k].kind == kind then old(clauses)[k] else Fresh(kind, pref)
              else clauses[k + 1..] == old(clauses)[k..] && clauses[k] == Fresh(kind, pref)
    {
      k := IndexLookup(RmapAny, pref);
      if k < |clauses| && clauses[k].kind == kind { return; }
      if k < |clauses| {
        ghost var at := k;
        clauses := clauses[..k] + clauses[k + 1..];
        k := IndexAdd(kind, pref);
        RemovedSlot(old(clauses), at, k, pref);
        ReplaceAscends(old(clauses), k, Fresh(kind, pref));
      } else {
        k := IndexAdd(kind, pref);
        InsertAscends(old(clauses), k, Fresh(kind, pref));
      }
    }
  }
}
