/** The command-format compiler of lib/command.c: cmd_parse_format reads a format string and
    its help text and builds a tree of tokens.  A vector of the source is named by the path
    that leads to it from the top-level vector; vectors only ever grow at their end, so a path
    stays good. */
module CommandFormat {

  import opened Types

  datatype Token =
    | Terminal(cmd: string, desc: Option<string>)
    | Multiple(parts: seq<Token>)
    | Keyword(alts: seq<seq<Token>>)

  /** One step of a path: token i of a vector, and alternative a if that is a keyword group. */
  datatype Hop = Hop(i: nat, a: nat)
  type Path = seq<Hop>

  predicate ValidPath(v: seq<Token>, path: Path)
    decreases |path|
  {
    path == [] ||
    (path[0].i < |v| &&
     match v[path[0].i]
     case Terminal(_, _) => false
     case Multiple(ps) => ValidPath(ps, path[1..])
     case Keyword(alts) => path[0].a < |alts| && ValidPath(alts[path[0].a], path[1..]))
  }

  /** The vector a path leads to. */
  function VectorAt(v: seq<Token>, path: Path): seq<Token>
    requires ValidPath(v, path)
    decreases |path|
  {
    if path == [] then v
    else match v[path[0].i]
      case Multiple(ps) => VectorAt(ps, path[1..])
      case Keyword(alts) => VectorAt(alts[path[0].a], path[1..])
  }

  /** v with `t` appended to the vector the path leads to. */
  function AppendAt(v: seq<Token>, path: Path, t: Token): (r: seq<Token>)
    requires ValidPath(v, path)
    ensures |r| == if path == [] then |v| + 1 else |v|
    decreases |path|
  {
    if path == [] then v + [t]
    else
      var i := path[0].i;
      match v[i]
      case Multiple(ps) => v[i := Multiple(AppendAt(ps, path[1..], t))]
      case Keyword(alts) =>
        var a := path[0].a;
        v[i := Keyword(alts[a := AppendAt(alts[a], path[1..], t)])]
  }

  /** Appending keeps every path good and adds one token at its own. */
  lemma {:induction false} AppendKeepsPaths(v: seq<Token>, path: Path, t: Token, other: Path)
    requires ValidPath(v, path) && ValidPath(v, other)
    ensures ValidPath(AppendAt(v, path, t), other)
    ensures ValidPath(AppendAt(v, path, t), path) && VectorAt(AppendAt(v, path, t), path) == VectorAt(v, path) + [t]
    decreases |path|
  {
    if path != [] {
      var h := path[0];
      var sub := if v[h.i].Multiple? then v[h.i].parts else v[h.i].alts[h.a];
      var same := other != [] && other[0].i == h.i && (v[h.i].Keyword? ==> other[0].a == h.a);
      AppendKeepsPaths(sub, path[1..], t, if same then other[1..] else []);
    }
  }

  lemma UpdateTwice<T>(s: seq<T>, i: nat, x: T, y: T)
    requires i < |s|
    ensures s[i := x][i := y] == s[i := y] && s[i := x][i] == x
  {
  }

  /** A group opened at the end of a vector, then filled: appending to the group is the same as
      appending the fuller group. */
  lemma {:induction false} AppendToLastGroup(v: seq<Token>, path: Path, ps: seq<Token>, t: Token)
    requires ValidPath(v, path)
    ensures var w := AppendAt(v, path, Multiple(ps));
            var inner := path + [Hop(|VectorAt(v, path)|, 0)];
            && ValidPath(w, inner) && VectorAt(w, inner) == ps
            && AppendAt(w, inner, t) == AppendAt(v, path, Multiple(ps + [t]))
    decreases |path|
  {
    var inner := path + [Hop(|VectorAt(v, path)|, 0)];
    if path != [] {
      var h := path[0];
      var sub := if v[h.i].Multiple? then v[h.i].parts else v[h.i].alts[h.a];
      assert inner[1..] == path[1..] + [Hop(|VectorAt(sub, path[1..])|, 0)];
      AppendToLastGroup(sub, path[1..], ps, t);
      assert AppendAt(AppendAt(v, path, Multiple(ps)), inner, t) == AppendAt(v, path, Multiple(ps + [t])) by {
        var w := AppendAt(v, path, Multiple(ps));
        assert inner[0] == h && w[h.i].Multiple? == v[h.i].Multiple?;
        UpdateTwice(v, h.i, w[h.i], AppendAt(w, inner, t)[h.i]);
        if v[h.i].Keyword? {
          UpdateTwice(v[h.i].alts, h.a, w[h.i].alts[h.a], AppendAt(w[h.i].alts[h.a], inner[1..], t));
        }
      }
    } else {
      assert inner[1..] == [];
    }
  }

  /** The same for a keyword group with one alternative. */
  lemma {:induction false} AppendToLastKeyword(v: seq<Token>, path: Path, alt: seq<Token>, t: Token)
    requires ValidPath(v, path)
    ensures var w := AppendAt(v, path, Keyword([alt]));
            var inner := path + [Hop(|VectorAt(v, path)|, 0)];
            && ValidPath(w, inner) && VectorAt(w, inner) == alt
            && AppendAt(w, inner, t) == AppendAt(v, path, Keyword([alt + [t]]))
    decreases |path|
  {
    var inner := path + [Hop(|VectorAt(v, path)|, 0)];
    if path != [] {
      var h := path[0];
      var sub := if v[h.i].Multiple? then v[h.i].parts else v[h.i].alts[h.a];
      assert inner[1..] == path[1..] + [Hop(|VectorAt(sub, path[1..])|, 0)];
      AppendToLastKeyword(sub, path[1..], alt, t);
      assert AppendAt(AppendAt(v, path, Keyword([alt])), inner, t) == AppendAt(v, path, Keyword([alt + [t]])) by {
        var w := AppendAt(v, path, Keyword([alt]));
        assert inner[0] == h && w[h.i].Multiple? == v[h.i].Multiple?;
        UpdateTwice(v, h.i, w[h.i], AppendAt(w, inner, t)[h.i]);
        if v[h.i].Keyword? {
          UpdateTwice(v[h.i].alts, h.a, w[h.i].alts[h.a], AppendAt(w[h.i].alts[h.a], inner[1..], t));
        }
      }
    } else {
      assert inner[1..] == [] && [alt][0 := alt + [t]] == [alt + [t]];
    }
  }

  // ----- Character classes -----

  predicate IsSpace(c: char) {
    c == ' ' || '\t' <= c <= '\r'
  }

  predicate WordChar(c: char) {
    !IsSpace(c) && c !in "(){}|"
  }

  function SkipSpace(s: string): (r: string)
    ensures |r| <= |s| && (r != "" ==> !IsSpace(r[0]))
  {
    if s != "" && IsSpace(s[0]) then SkipSpace(s[1..]) else s
  }

  function WordLength(s: string): (n: nat)
    ensures n <= |s| && (s != "" && WordChar(s[0]) ==> n > 0)
  {
    if s == "" || !WordChar(s[0]) then 0 else 1 + WordLength(s[1..])
  }

  function LineLength(s: string): (n: nat)
    ensures n <= |s|
  {
    if s == "" || s[0] == '\r' || s[0] == '\n' then 0 else 1 + LineLength(s[1..])
  }

  /** The next help line and what is left of the help text. */
  function ReadDesc(dp: string): (Option<string>, string) {
    var s := SkipSpace(dp);
    if s == "" then (None, dp)
    else
      var n := LineLength(s);
      (Some(s[..n]), s[n..])
  }

  // ----- The parser -----

  datatype State = State(
    top: seq<Token>,        // topvect
    cur: Path,              // curvect
    inter: Option<Path>,    // intvect
    rest: string,           // format text from cp on
    dp: string,             // help text not read yet; empty for a null pointer
    inKeyword: nat, inMultiple: bool, justRead: bool)

  ghost predicate Good(st: State) {
    ValidPath(st.top, st.cur) && (st.inter.Some? ==> ValidPath(st.top, st.inter.value))
  }

  /** Outcome of one step.  A crash is the use of a null vector. */
  datatype Step = More(st: State) | Fail(message: string) | Crash

  datatype Result = Parsed(tree: seq<Token>) | Rejected(message: string) | Crashed

  function BeginKeyword(st: State): Step
    requires Good(st) && st.rest != ""
  {
    if st.inKeyword != 0 || st.inMultiple then Fail("Unexpected '{'")
    else More(st.(top := AppendAt(st.top, st.cur, Keyword([[]])),
                  cur := st.cur + [Hop(|VectorAt(st.top, st.cur)|, 0)],
                  rest := st.rest[1..], inKeyword := 1))
  }

  function BeginMultiple(st: State): Step
    requires Good(st) && st.rest != ""
  {
    if st.inKeyword == 1 then Fail("Keyword starting with '('")
    else if st.inMultiple then Fail("Nested group")
    else More(st.(top := AppendAt(st.top, st.cur, Multiple([])),
                  inter := if st.cur != [] then Some(st.cur) else st.inter,
                  cur := st.cur + [Hop(|VectorAt(st.top, st.cur)|, 0)],
                  rest := st.rest[1..], inMultiple := true, justRead := false))
  }

  function EndKeyword(st: State): Step
    requires st.rest != ""
  {
    if st.inMultiple || st.inKeyword == 0 then Fail("Unexpected '}'")
    else if st.inKeyword == 1 then Fail("Empty keyword group")
    else More(st.(cur := [], rest := st.rest[1..], inKeyword := 0))
  }

  function EndMultiple(st: State): Step
    requires Good(st) && st.rest != ""
  {
    if !st.inMultiple then Fail("Unepexted ')'")
    else if VectorAt(st.top, st.cur) == [] then Fail("Empty multiple section")
    else More(st.(cur := if st.inter.Some? then st.inter.value else [],
                  dp := if st.justRead then st.dp else ReadDesc(st.dp).1,
                  rest := st.rest[1..], inMultiple := false))
  }

  function HandlePipe(st: State): Step
    requires st.rest != ""
  {
    if st.inMultiple then More(st.(rest := st.rest[1..], justRead := false))
    else if st.inKeyword == 0 then Fail("Unexpected '|'")
    else
      var k := |st.top| - 1;
      if k < 0 || !st.top[k].Keyword? then Crash
      else More(st.(top := st.top[k := Keyword(st.top[k].alts + [[]])],
                    cur := [Hop(k, |st.top[k].alts|)],
                    rest := st.rest[1..], inKeyword := 1))
  }

  /** A word with its help line, appended to the current vector. */
  function AddWord(st: State, w: string): State
    requires Good(st)
  {
    var (desc, dp) := ReadDesc(st.dp);
    st.(top := AppendAt(st.top, st.cur, Terminal(w, desc)), dp := dp,
        inKeyword := if st.inKeyword == 1 then 2 else st.inKeyword, justRead := true)
  }

  function ReadWord(st: State): Step
    requires Good(st) && st.rest != ""
  {
    var n := WordLength(st.rest);
    More(AddWord(st, st.rest[..n]).(rest := st.rest[n..]))
  }

  /** One turn of the switch, at a character that is not white space. */
  function Dispatch(st: State): Step
    requires Good(st) && st.rest != "" && !IsSpace(st.rest[0])
  {
    match st.rest[0]
    case '{' => BeginKeyword(st)
    case '(' => BeginMultiple(st)
    case '}' => EndKeyword(st)
    case ')' => EndMultiple(st)
    case '|' => HandlePipe(st)
    case _ => ReadWord(st)
  }

  lemma DispatchProgress(st: State)
    requires Good(st) && st.rest != "" && !IsSpace(st.rest[0])
    ensures var x := Dispatch(st); x.More? ==> Good(x.st) && |x.st.rest| < |st.rest|
  {
    var x := Dispatch(st);
    if x.More? {
      match st.rest[0]
      case '{' => AppendToLastKeyword(st.top, st.cur, [], Terminal("", None)); KeepInter(st, Keyword([[]]));
      case '(' =>
        AppendToLastGroup(st.top, st.cur, [], Terminal("", None));
        KeepInter(st, Multiple([]));
        AppendKeepsPaths(st.top, st.cur, Multiple([]), st.cur);
      case '|' => if !st.inMultiple { PipeKeepsPaths(st.top, if st.inter.Some? then st.inter.value else []); }
      case '}' =>
      case ')' =>
      case _ =>
        var t := Terminal(st.rest[..WordLength(st.rest)], ReadDesc(st.dp).0);
        AppendKeepsPaths(st.top, st.cur, t, st.cur);
        KeepInter(st, t);
    }
  }

  lemma KeepInter(st: State, t: Token)
    requires Good(st)
    ensures st.inter.Some? ==> ValidPath(AppendAt(st.top, st.cur, t), st.inter.value)
  {
    if st.inter.Some? { AppendKeepsPaths(st.top, st.cur, t, st.inter.value); }
  }

  lemma PipeKeepsPaths(v: seq<Token>, other: Path)
    requires v != [] && v[|v| - 1].Keyword? && ValidPath(v, other)
    ensures ValidPath(v[|v| - 1 := Keyword(v[|v| - 1].alts + [[]])], other)
  {
  }

  function Finish(st: State): Result {
    if st.inKeyword != 0 || st.inMultiple then Rejected("Unclosed group/keyword") else Parsed(st.top)
  }

  /** The parser's loop. */
  function Run(st: State): Result
    requires Good(st)
    decreases |st.rest|
  {
    var here := st.(rest := SkipSpace(st.rest));
    if here.rest == "" then Finish(here)
    else
      DispatchProgress(here);
      match Dispatch(here)
      case More(st') => Run(st')
      case Fail(m) => Rejected(m)
      case Crash => Crashed
  }

  function Init(format: string, help: string): State {
    State([], [], None, format, help, 0, false, false)
  }

  function Parse(format: string, help: string): Result {
    Run(Init(format, help))
  }

  // ----- Commands of the documented grammar and how they are written -----

  datatype Part = Word(w: string) | Group(words: seq<string>, trailing: bool)

  datatype Item = Single(part: Part) | Keywords(alts: seq<seq<Part>>)

  predicate WfWord(w: string) {
    w != "" && forall i | 0 <= i < |w| :: WordChar(w[i])
  }

  predicate WfPart(p: Part) {
    match p
    case Word(w) => WfWord(w)
    case Group(ws, _) => ws != [] && forall i | 0 <= i < |ws| :: WfWord(ws[i])
  }

  predicate WfParts(parts: seq<Part>) {
    forall i | 0 <= i < |parts| :: WfPart(parts[i])
  }

  predicate WfAlt(alt: seq<Part>) {
    alt != [] && alt[0].Word? && WfParts(alt)
  }

  predicate WfAlts(alts: seq<seq<Part>>) {
    alts != [] && forall i | 0 <= i < |alts| :: WfAlt(alts[i])
  }

  predicate WfItem(item: Item) {
    match item
    case Single(p) => WfPart(p)
    case Keywords(alts) => WfAlts(alts)
  }

  predicate WfItems(items: seq<Item>) {
    forall i | 0 <= i < |items| :: WfItem(items[i])
  }

  function PrintWords(ws: seq<string>): string
    requires ws != []
  {
    if |ws| == 1 then ws[0] else ws[0] + ("|" + PrintWords(ws[1..]))
  }

  function PrintPart(p: Part): string
    requires WfPart(p)
  {
    match p
    case Word(w) => w
    case Group(ws, trailing) => "(" + (PrintWords(ws) + ((if trailing then "|" else "") + ")"))
  }

  function PrintParts(parts: seq<Part>): string
    requires parts != [] && WfParts(parts)
  {
    if |parts| == 1 then PrintPart(parts[0]) else PrintPart(parts[0]) + (" " + PrintParts(parts[1..]))
  }

  function PrintAlts(alts: seq<seq<Part>>): string
    requires WfAlts(alts)
  {
    assert WfAlt(alts[0]);
    if |alts| == 1 then PrintParts(alts[0]) else PrintParts(alts[0]) + ("|" + PrintAlts(alts[1..]))
  }

  function PrintItem(item: Item): string
    requires WfItem(item)
  {
    match item
    case Single(p) => PrintPart(p)
    case Keywords(alts) => "{" + (PrintAlts(alts) + "}")
  }

  function Print(items: seq<Item>): string
    requires WfItems(items)
  {
    if items == [] then ""
    else if |items| == 1 then PrintItem(items[0])
    else PrintItem(items[0]) + (" " + Print(items[1..]))
  }

  // ----- What the parser does with each written part -----

  function AddWords(st: State, ws: seq<string>): (r: State)
    requires Good(st)
    ensures Good(r)
    decreases |ws|
  {
    if ws == [] then st
    else
      AddWordKeepsGood(st, ws[0]);
      AddWords(AddWord(st, ws[0]), ws[1..])
  }

  lemma AddWordKeepsGood(st: State, w: string)
    requires Good(st)
    ensures Good(AddWord(st, w)) && AddWord(st, w).cur == st.cur
    ensures VectorAt(AddWord(st, w).top, st.cur) == VectorAt(st.top, st.cur) + [Terminal(w, ReadDesc(st.dp).0)]
  {
    var t := Terminal(w, ReadDesc(st.dp).0);
    AppendKeepsPaths(st.top, st.cur, t, st.cur);
    KeepInter(st, t);
  }

  function OpenGroup(st: State): (r: State)
    requires Good(st)
    ensures Good(r)
  {
    AppendToLastGroup(st.top, st.cur, [], Terminal("", None));
    KeepInter(st, Multiple([]));
    AppendKeepsPaths(st.top, st.cur, Multiple([]), st.cur);
    st.(top := AppendAt(st.top, st.cur, Multiple([])),
        inter := if st.cur != [] then Some(st.cur) else st.inter,
        cur := st.cur + [Hop(|VectorAt(st.top, st.cur)|, 0)], inMultiple := true, justRead := false)
  }

  function CloseGroup(st: State, trailing: bool): (r: State)
    requires Good(st)
    ensures Good(r)
  {
    st.(cur := if st.inter.Some? then st.inter.value else [],
        dp := if trailing then ReadDesc(st.dp).1 else st.dp, inMultiple := false, justRead := !trailing)
  }

  function DoPart(st: State, p: Part): (r: State)
    requires Good(st)
    ensures Good(r)
  {
    match p
    case Word(w) => AddWordKeepsGood(st, w); AddWord(st, w)
    case Group(ws, trailing) => CloseGroup(AddWords(OpenGroup(st), ws), trailing)
  }

  function DoParts(st: State, parts: seq<Part>): (r: State)
    requires Good(st)
    ensures Good(r)
    decreases |parts|
  {
    if parts == [] then st else DoParts(DoPart(st, parts[0]), parts[1..])
  }

  predicate AtKeyword(st: State) {
    st.top != [] && st.top[|st.top| - 1].Keyword?
  }

  function NextAlt(st: State): (r: State)
    requires Good(st) && AtKeyword(st)
    ensures Good(r)
  {
    var k := |st.top| - 1;
    PipeKeepsPaths(st.top, if st.inter.Some? then st.inter.value else []);
    st.(top := st.top[k := Keyword(st.top[k].alts + [[]])], cur := [Hop(k, |st.top[k].alts|)], inKeyword := 1)
  }

  /** The alternatives of a keyword group; None is a crash. */
  function DoAlts(st: State, alts: seq<seq<Part>>): (r: Option<State>)
    requires Good(st) && alts != []
    ensures r.Some? ==> Good(r.value)
    decreases |alts|
  {
    var st1 := DoParts(st, alts[0]);
    if |alts| == 1 then Some(st1)
    else if !AtKeyword(st1) then None
    else DoAlts(NextAlt(st1), alts[1..])
  }

  function OpenKeyword(st: State): (r: State)
    requires Good(st)
    ensures Good(r) && r.inKeyword == 1 && r.inMultiple == st.inMultiple
  {
    AppendToLastKeyword(st.top, st.cur, [], Terminal("", None));
    KeepInter(st, Keyword([[]]));
    st.(top := AppendAt(st.top, st.cur, Keyword([[]])), cur := st.cur + [Hop(|VectorAt(st.top, st.cur)|, 0)],
        inKeyword := 1)
  }

  function DoItem(st: State, item: Item): (r: Option<State>)
    requires Good(st) && WfItem(item)
    ensures r.Some? ==> Good(r.value)
  {
    match item
    case Single(p) => Some(DoPart(st, p))
    case Keywords(alts) =>
      match DoAlts(OpenKeyword(st), alts)
      case None => None
      case Some(st1) => Some(st1.(cur := [], inKeyword := 0))
  }

  function DoItems(st: State, items: seq<Item>): (r: Option<State>)
    requires Good(st) && WfItems(items)
    ensures r.Some? ==> Good(r.value)
    decreases |items|
  {
    if items == [] then Some(st)
    else match DoItem(st, items[0])
      case None => None
      case Some(st1) => DoItems(st1, items[1..])
  }

  // ----- Reading a printed command performs exactly those actions -----

  /** The reader is between two tokens and the text that follows ends a word. */
  predicate Delimited(tail: string) {
    tail == "" || !WordChar(tail[0])
  }

  lemma {:induction false} WordPrefix(w: string, tail: string)
    requires WfWord(w) && Delimited(tail)
    ensures WordLength(w + tail) == |w|
  {
    assert (w + tail)[0] == w[0] && (w + tail)[1..] == w[1..] + tail;
    if |w| == 1 {
      assert w[1..] + tail == tail;
    } else {
      WordPrefix(w[1..], tail);
    }
  }

  lemma RunWord(st: State, w: string, tail: string)
    requires Good(st) && WfWord(w) && Delimited(tail)
    ensures Good(AddWord(st, w))
    ensures Run(st.(rest := w + tail)) == Run(AddWord(st, w).(rest := tail))
  {
    AddWordKeepsGood(st, w);
    WordPrefix(w, tail);
    var here := st.(rest := w + tail);
    assert here.rest[0] == w[0] && WordChar(w[0]);
    assert here.rest[..|w|] == w && here.rest[|w|..] == tail;
    assert SkipSpace(here.rest) == here.rest && here == here.(rest := here.rest);
    assert Dispatch(here) == ReadWord(here) == More(AddWord(st, w).(rest := tail));
  }

  lemma RunSpace(st: State, tail: string)
    requires Good(st)
    ensures Run(st.(rest := " " + tail)) == Run(st.(rest := tail))
  {
    assert (" " + tail)[1..] == tail;
    assert SkipSpace(" " + tail) == SkipSpace(tail);
  }

  /** One punctuation character. */
  lemma RunMark(st: State, c: char, tail: string)
    requires Good(st) && c in "(){}|"
    ensures Run(st.(rest := [c] + tail))
         == (match Dispatch(st.(rest := [c] + tail))
             case More(x) => DispatchProgress(st.(rest := [c] + tail)); Run(x)
             case Fail(m) => Rejected(m)
             case Crash => Crashed)
  {
    var here := st.(rest := [c] + tail);
    assert SkipSpace(here.rest) == here.rest && here == here.(rest := here.rest);
  }

  lemma RunBar(st: State, tail: string)
    requires Good(st) && st.inMultiple
    ensures Run(st.(rest := "|" + tail)) == Run(st.(rest := tail, justRead := false))
  {
    assert "|" + tail == ['|'] + tail && (['|'] + tail)[1..] == tail;
    RunMark(st, '|', tail);
  }

  lemma {:induction false} RunWords(st: State, ws: seq<string>, tail: string)
    requires Good(st) && st.inMultiple && ws != [] && (forall i | 0 <= i < |ws| :: WfWord(ws[i])) && Delimited(tail)
    ensures Run(st.(rest := PrintWords(ws) + tail)) == Run(AddWords(st, ws).(rest := tail))
    decreases |ws|
  {
    hide Run, ReadDesc;
    AddWordKeepsGood(st, ws[0]);
    var st1 := AddWord(st, ws[0]);
    if |ws| == 1 {
      RunWord(st, ws[0], tail);
      assert ws[1..] == [];
    } else {
      var tail1 := PrintWords(ws[1..]) + tail;
      assert PrintWords(ws) + tail == ws[0] + ("|" + tail1);
      RunWord(st, ws[0], "|" + tail1);
      RunBar(st1, tail1);
      RunWords(st1.(justRead := false), ws[1..], tail);
      AddWordsIgnoreJustRead(st1, ws[1..]);
    }
  }

  lemma AddWordsIgnoreJustRead(st: State, ws: seq<string>)
    requires Good(st) && ws != []
    ensures AddWords(st, ws) == AddWords(st.(justRead := false), ws)
  {
    assert AddWord(st, ws[0]) == AddWord(st.(justRead := false), ws[0]);
  }

  lemma {:induction false} AddWordsKeepMode(st: State, ws: seq<string>)
    requires Good(st) && st.inKeyword != 1
    ensures var r := AddWords(st, ws);
            && r.cur == st.cur && r.inter == st.inter && r.inKeyword == st.inKeyword && r.inMultiple == st.inMultiple
            && |VectorAt(r.top, r.cur)| == |VectorAt(st.top, st.cur)| + |ws|
            && (ws != [] ==> r.justRead)
    decreases |ws|
  {
    if ws != [] {
      AddWordKeepsGood(st, ws[0]);
      AddWordsKeepMode(AddWord(st, ws[0]), ws[1..]);
    }
  }

  /** A part reads as its actions. */
  lemma RunPart(st: State, p: Part, tail: string)
    requires Good(st) && WfPart(p) && !st.inMultiple && (p.Group? ==> st.inKeyword != 1) && Delimited(tail)
    ensures Run(st.(rest := PrintPart(p) + tail)) == Run(DoPart(st, p).(rest := tail))
    ensures var r := DoPart(st, p);
            !r.inMultiple && r.inKeyword == if st.inKeyword == 1 then 2 else st.inKeyword
  {
    hide Run, OpenGroup, CloseGroup, AddWords, PrintWords;
    match p
    case Word(w) => RunWord(st, w, tail);
    case Group(ws, trailing) =>
      var end := (if trailing then "|" else "") + (")" + tail);
      assert PrintPart(p) + tail == "(" + (PrintWords(ws) + end);
      var st1 := OpenGroup(st);
      RunGroupStart(st, PrintWords(ws) + end);
      RunWords(st1, ws, end);
      AddWordsKeepMode(st1, ws);
      var st2 := AddWords(st1, ws);
      RunGroupEnd(st2, trailing, tail);
  }

  lemma RunGroupStart(st: State, tail: string)
    requires Good(st) && !st.inMultiple && st.inKeyword != 1
    ensures Run(st.(rest := "(" + tail)) == Run(OpenGroup(st).(rest := tail))
    ensures var r := OpenGroup(st);
            r.inMultiple && r.inKeyword == st.inKeyword && VectorAt(r.top, r.cur) == []
  {
    assert "(" + tail == ['('] + tail && (['('] + tail)[1..] == tail;
    RunMark(st, '(', tail);
    AppendToLastGroup(st.top, st.cur, [], Terminal("", None));
  }

  lemma RunGroupEnd(st: State, trailing: bool, tail: string)
    requires Good(st) && st.inMultiple && st.justRead && VectorAt(st.top, st.cur) != []
    ensures Run(st.(rest := (if trailing then "|" else "") + (")" + tail)))
         == Run(CloseGroup(st, trailing).(rest := tail))
    ensures var r := CloseGroup(st, trailing); !r.inMultiple && r.inKeyword == st.inKeyword
  {
    var close := ")" + tail;
    var st1 := if trailing then st.(justRead := false) else st;
    if trailing {
      RunBar(st, close);
    } else {
      assert "" + close == close;
    }
    assert close == [')'] + tail && ([')'] + tail)[1..] == tail;
    RunMark(st1, ')', tail);
    assert CloseGroup(st, trailing) == CloseGroup(st1, trailing);
  }

  lemma {:induction false} RunParts(st: State, parts: seq<Part>, tail: string)
    requires Good(st) && parts != [] && WfParts(parts) && !st.inMultiple && st.inKeyword != 0 && Delimited(tail)
    requires st.inKeyword == 1 ==> parts[0].Word?
    ensures Run(st.(rest := PrintParts(parts) + tail)) == Run(DoParts(st, parts).(rest := tail))
    ensures var r := DoParts(st, parts); !r.inMultiple && r.inKeyword >= 2
    decreases |parts|
  {
    hide Run, DoPart, PrintPart, Good;
    var st1 := DoPart(st, parts[0]);
    if |parts| == 1 {
      RunPart(st, parts[0], tail);
      assert parts[1..] == [] && DoParts(st, parts) == DoParts(st1, []);
    } else {
      var tail1 := PrintParts(parts[1..]) + tail;
      assert PrintParts(parts) + tail == PrintPart(parts[0]) + (" " + tail1);
      RunPart(st, parts[0], " " + tail1);
      RunSpace(st1, tail1);
      RunParts(st1, parts[1..], tail);
    }
  }

  lemma RunPipe(st: State, tail: string)
    requires Good(st) && !st.inMultiple && st.inKeyword != 0
    ensures Run(st.(rest := "|" + tail)) == if AtKeyword(st) then Run(NextAlt(st).(rest := tail)) else Crashed
  {
    hide VectorAt, AppendAt, ReadDesc, ValidPath, WordLength;
    assert "|" + tail == ['|'] + tail && (['|'] + tail)[1..] == tail;
    RunMark(st, '|', tail);
  }

  lemma {:induction false} RunAlts(st: State, alts: seq<seq<Part>>, tail: string)
    requires Good(st) && WfAlts(alts) && !st.inMultiple && st.inKeyword == 1 && Delimited(tail)
    ensures var r := DoAlts(st, alts);
            Run(st.(rest := PrintAlts(alts) + tail)) == if r == None then Crashed else Run(r.value.(rest := tail))
    ensures var r := DoAlts(st, alts); r.Some? ==> !r.value.inMultiple && r.value.inKeyword >= 2
    decreases |alts|
  {
    hide Run, DoParts, PrintParts, Good;
    assert WfAlt(alts[0]);
    var st1 := DoParts(st, alts[0]);
    if |alts| == 1 {
      RunParts(st, alts[0], tail);
    } else {
      var tail1 := PrintAlts(alts[1..]) + tail;
      assert PrintAlts(alts) + tail == PrintParts(alts[0]) + ("|" + tail1);
      RunParts(st, alts[0], "|" + tail1);
      RunPipe(st1, tail1);
      if AtKeyword(st1) {
        RunAlts(NextAlt(st1), alts[1..], tail);
      }
    }
  }

  /** Between two top-level tokens. */
  predicate Between(st: State) {
    st.inKeyword == 0 && !st.inMultiple
  }

  lemma RunItem(st: State, item: Item, tail: string)
    requires Good(st) && WfItem(item) && Between(st) && Delimited(tail)
    ensures var r := DoItem(st, item);
            Run(st.(rest := PrintItem(item) + tail)) == if r == None then Crashed else Run(r.value.(rest := tail))
    ensures var r := DoItem(st, item); r.Some? ==> Between(r.value)
  {
    hide Run, OpenKeyword, DoPart, DoAlts, PrintPart, PrintAlts;
    match item
    case Single(p) => RunPart(st, p, tail);
    case Keywords(alts) =>
      var tail1 := "}" + tail;
      var body := PrintAlts(alts) + tail1;
      assert PrintItem(item) + tail == "{" + body;
      var st1 := OpenKeyword(st);
      RunBraces(st, body);
      RunAlts(st1, alts, tail1);
      var r := DoAlts(st1, alts);
      if r.Some? {
        RunBraces(r.value, tail);
      }
  }

  lemma RunBraces(st: State, tail: string)
    requires Good(st) && !st.inMultiple
    ensures st.inKeyword == 0 ==> Run(st.(rest := "{" + tail)) == Run(OpenKeyword(st).(rest := tail))
    ensures st.inKeyword >= 2 ==> Run(st.(rest := "}" + tail)) == Run(st.(cur := [], inKeyword := 0, rest := tail))
  {
    assert "{" + tail == ['{'] + tail && (['{'] + tail)[1..] == tail;
    assert "}" + tail == ['}'] + tail && (['}'] + tail)[1..] == tail;
    RunMark(st, '{', tail);
    RunMark(st, '}', tail);
  }

  /** Parsing what is printed performs the actions of its items, or crashes where they do. */
  lemma {:induction false} RunItems(st: State, items: seq<Item>)
    requires Good(st) && WfItems(items) && Between(st)
    ensures var r := DoItems(st, items);
            Run(st.(rest := Print(items))) == if r == None then Crashed else Parsed(r.value.top)
    decreases |items|
  {
    if items != [] {
      var item, rest := items[0], items[1..];
      var tail := if rest == [] then "" else " " + Print(rest);
      assert Print(items) == PrintItem(item) + tail;
      RunItem(st, item, tail);
      var r := DoItem(st, item);
      if r.Some? {
        RunItems(r.value, rest);
        if rest != [] { RunSpace(r.value, Print(rest)); }
      }
    }
  }

  // ----- Help text -----

  predicate WfLine(l: string) {
    l != "" && !IsSpace(l[0]) && forall i | 0 <= i < |l| :: l[i] != '\r' && l[i] != '\n'
  }

  predicate WfLines(lines: seq<string>) {
    forall i | 0 <= i < |lines| :: WfLine(lines[i])
  }

  /** One help line for each terminal, each ended by a line feed. */
  function HelpText(lines: seq<string>): string {
    if lines == [] then "" else lines[0] + ("\n" + HelpText(lines[1..]))
  }

  function TakeLine(lines: seq<string>): (Option<string>, seq<string>) {
    if lines == [] then (None, []) else (Some(lines[0]), lines[1..])
  }

  /** The help lines not read yet; the line feed that ended the last one may still be there. */
  predicate HelpAt(dp: string, lines: seq<string>) {
    WfLines(lines) && (dp == HelpText(lines) || dp == "\n" + HelpText(lines))
  }

  lemma {:induction false} LinePrefix(l: string, tail: string)
    requires forall i | 0 <= i < |l| :: l[i] != '\r' && l[i] != '\n'
    ensures LineLength(l + ("\n" + tail)) == |l|
    decreases |l|
  {
    var s := l + ("\n" + tail);
    if l == "" {
      assert s[0] == '\n';
    } else {
      assert s[0] == l[0] && s[1..] == l[1..] + ("\n" + tail);
      LinePrefix(l[1..], tail);
    }
  }

  lemma ReadDescTakesLine(dp: string, lines: seq<string>)
    requires HelpAt(dp, lines)
    ensures ReadDesc(dp).0 == TakeLine(lines).0 && HelpAt(ReadDesc(dp).1, TakeLine(lines).1)
  {
    var text := HelpText(lines);
    assert SkipSpace("\n" + text) == SkipSpace(text) by { assert ("\n" + text)[1..] == text; }
    if lines != [] {
      assert WfLine(lines[0]) && text[0] == lines[0][0];
      LinePrefix(lines[0], HelpText(lines[1..]));
      assert text[..|lines[0]|] == lines[0] && text[|lines[0]|..] == "\n" + HelpText(lines[1..]);
    }
  }

  // ----- The tree a command stands for -----

  function WordsTree(ws: seq<string>, lines: seq<string>): (seq<Token>, seq<string>) {
    if ws == [] then ([], lines)
    else
      var (desc, rest) := TakeLine(lines);
      var (ts, left) := WordsTree(ws[1..], rest);
      ([Terminal(ws[0], desc)] + ts, left)
  }

  /** Each terminal takes the next help line; a group that ends in "|)" drops one more. */
  function PartTree(p: Part, lines: seq<string>): (Token, seq<string>) {
    match p
    case Word(w) => var (desc, rest) := TakeLine(lines); (Terminal(w, desc), rest)
    case Group(ws, trailing) =>
      var (ts, left) := WordsTree(ws, lines);
      (Multiple(ts), if trailing then TakeLine(left).1 else left)
  }

  function PartsTree(parts: seq<Part>, lines: seq<string>): (seq<Token>, seq<string>) {
    if parts == [] then ([], lines)
    else
      var (t, rest) := PartTree(parts[0], lines);
      var (ts, left) := PartsTree(parts[1..], rest);
      ([t] + ts, left)
  }

  function AltsTree(alts: seq<seq<Part>>, lines: seq<string>): (seq<seq<Token>>, seq<string>) {
    if alts == [] then ([], lines)
    else
      var (t, rest) := PartsTree(alts[0], lines);
      var (ts, left) := AltsTree(alts[1..], rest);
      ([t] + ts, left)
  }

  function ItemTree(item: Item, lines: seq<string>): (Token, seq<string>) {
    match item
    case Single(p) => PartTree(p, lines)
    case Keywords(alts) => var (ts, left) := AltsTree(alts, lines); (Keyword(ts), left)
  }

  function Tree(items: seq<Item>, lines: seq<string>): (ts: seq<Token>)
    ensures |ts| == |items|
    decreases |items|
  {
    if items == [] then []
    else
      var (t, rest) := ItemTree(items[0], lines);
      [t] + Tree(items[1..], rest)
  }

  // ----- The actions build that tree at the current vector -----

  lemma {:induction false} AddWordsTree(st: State, ws: seq<string>, lines: seq<string>, v: seq<Token>, path: Path,
                                        ps: seq<Token>)
    requires Good(st) && HelpAt(st.dp, lines) && ValidPath(v, path)
    requires st.top == AppendAt(v, path, Multiple(ps)) && st.cur == path + [Hop(|VectorAt(v, path)|, 0)]
    ensures var r := AddWords(st, ws);
            && r.top == AppendAt(v, path, Multiple(ps + WordsTree(ws, lines).0))
            && HelpAt(r.dp, WordsTree(ws, lines).1) && r.inter == st.inter && r.cur == st.cur
    decreases |ws|
  {
    if ws == [] {
      assert ps + [] == ps;
    } else {
      ReadDescTakesLine(st.dp, lines);
      var t := Terminal(ws[0], ReadDesc(st.dp).0);
      AppendToLastGroup(v, path, ps, t);
      AddWordKeepsGood(st, ws[0]);
      AddWordsTree(AddWord(st, ws[0]), ws[1..], TakeLine(lines).1, v, path, ps + [t]);
      assert ps + [t] + WordsTree(ws[1..], TakeLine(lines).1).0 == ps + WordsTree(ws, lines).0;
    }
  }

  /** The intermediate vector after a part read at `cur`. */
  function InterAfter(st: State, p: Part): Option<Path> {
    if p.Group? && st.cur != [] then Some(st.cur) else st.inter
  }

  lemma DoPartTree(st: State, p: Part, lines: seq<string>)
    requires Good(st) && HelpAt(st.dp, lines)
    ensures var r := DoPart(st, p);
            && r.top == AppendAt(st.top, st.cur, PartTree(p, lines).0) && HelpAt(r.dp, PartTree(p, lines).1)
            && r.inter == InterAfter(st, p)
            && r.cur == if p.Word? then st.cur else if r.inter.Some? then r.inter.value else []
  {
    match p
    case Word(w) => ReadDescTakesLine(st.dp, lines);
    case Group(ws, trailing) =>
      var st1 := OpenGroup(st);
      AddWordsTree(st1, ws, lines, st.top, st.cur, []);
      assert [] + WordsTree(ws, lines).0 == WordsTree(ws, lines).0;
      ReadDescTakesLine(AddWords(st1, ws).dp, WordsTree(ws, lines).1);
  }

  predicate HasGroup(parts: seq<Part>) {
    exists i | 0 <= i < |parts| :: parts[i].Group?
  }

  lemma HasGroupSplit(parts: seq<Part>)
    requires parts != []
    ensures HasGroup(parts) <==> parts[0].Group? || HasGroup(parts[1..])
  {
    if HasGroup(parts[1..]) {
      var i :| 0 <= i < |parts[1..]| && parts[1..][i].Group?;
      assert parts[i + 1].Group?;
    }
    if HasGroup(parts) {
      var i :| 0 <= i < |parts| && parts[i].Group?;
      assert i > 0 ==> parts[1..][i - 1].Group?;
    }
  }

  lemma AppendToLastAlt(v: seq<Token>, alts: seq<seq<Token>>, alt: seq<Token>, t: Token)
    ensures var w := v + [Keyword(alts + [alt])];
            var cur := [Hop(|v|, |alts|)];
            ValidPath(w, cur) && AppendAt(w, cur, t) == v + [Keyword(alts + [alt + [t]])]
  {
    var w := v + [Keyword(alts + [alt])];
    var cur := [Hop(|v|, |alts|)];
    assert cur[1..] == [] && (alts + [alt])[|alts| := alt + [t]] == alts + [alt + [t]];
    assert w[|v| := Keyword(alts + [alt + [t]])] == v + [Keyword(alts + [alt + [t]])];
  }

  lemma {:induction false} DoPartsTree(st: State, parts: seq<Part>, lines: seq<string>,
                                       v: seq<Token>, alts: seq<seq<Token>>, alt: seq<Token>)
    requires Good(st) && HelpAt(st.dp, lines)
    requires st.top == v + [Keyword(alts + [alt])] && st.cur == [Hop(|v|, |alts|)]
    ensures var r := DoParts(st, parts);
            && r.top == v + [Keyword(alts + [alt + PartsTree(parts, lines).0])]
            && HelpAt(r.dp, PartsTree(parts, lines).1) && r.cur == st.cur
            && r.inter == if HasGroup(parts) then Some(st.cur) else st.inter
    decreases |parts|
  {
    if parts == [] {
      assert alt + [] == alt;
    } else {
      var (t, rest) := PartTree(parts[0], lines);
      AppendToLastAlt(v, alts, alt, t);
      DoPartTree(st, parts[0], lines);
      HasGroupSplit(parts);
      DoPartsTree(DoPart(st, parts[0]), parts[1..], rest, v, alts, alt + [t]);
      assert alt + [t] + PartsTree(parts[1..], rest).0 == alt + PartsTree(parts, lines).0;
    }
  }

  predicate AnyGroup(alts: seq<seq<Part>>) {
    exists i | 0 <= i < |alts| :: HasGroup(alts[i])
  }

  lemma AnyGroupSplit(alts: seq<seq<Part>>)
    requires alts != []
    ensures AnyGroup(alts) <==> HasGroup(alts[0]) || AnyGroup(alts[1..])
  {
    if AnyGroup(alts[1..]) {
      var i :| 0 <= i < |alts[1..]| && HasGroup(alts[1..][i]);
      assert HasGroup(alts[i + 1]);
    }
    if AnyGroup(alts) {
      var i :| 0 <= i < |alts| && HasGroup(alts[i]);
      assert i > 0 ==> HasGroup(alts[1..][i - 1]);
    }
  }

  lemma {:induction false} DoAltsTree(st: State, alts: seq<seq<Part>>, lines: seq<string>,
                                      v: seq<Token>, done: seq<seq<Token>>)
    requires Good(st) && HelpAt(st.dp, lines) && alts != []
    requires st.top == v + [Keyword(done + [[]])] && st.cur == [Hop(|v|, |done|)]
    ensures var r := DoAlts(st, alts);
            && r.Some? && r.value.top == v + [Keyword(done + AltsTree(alts, lines).0)]
            && HelpAt(r.value.dp, AltsTree(alts, lines).1)
            && (if AnyGroup(alts) then r.value.inter.Some? && r.value.inter.value != [] else r.value.inter == st.inter)
    decreases |alts|
  {
    DoPartsTree(st, alts[0], lines, v, done, []);
    AnyGroupSplit(alts);
    var (t, rest) := PartsTree(alts[0], lines);
    assert [] + t == t;
    var st1 := DoParts(st, alts[0]);
    assert st1.top == v + [Keyword(done + [t])];
    if |alts| == 1 {
      assert alts[1..] == [] && AltsTree(alts, lines).0 == [t];
    } else {
      var next := NextAlt(st1);
      assert next.top == v + [Keyword(done + [t] + [[]])];
      DoAltsTree(next, alts[1..], rest, v, done + [t]);
      assert done + [t] + AltsTree(alts[1..], rest).0 == done + AltsTree(alts, lines).0;
    }
  }

  // ----- When the tree is the one the command stands for -----

  /** A keyword group with a multiple inside leaves the intermediate vector set. */
  predicate Opens(item: Item) {
    item.Keywords? && AnyGroup(item.alts)
  }

  predicate IsGroup(item: Item) {
    item.Single? && item.part.Group?
  }

  /** At top level, between tokens, with paths as the parser leaves them. */
  ghost predicate AtTop(st: State) {
    Good(st) && st.cur == [] && (st.inter.Some? ==> st.inter.value != [])
  }

  lemma DoItemTree(st: State, item: Item, lines: seq<string>)
    requires AtTop(st) && HelpAt(st.dp, lines) && WfItem(item)
    ensures var r := DoItem(st, item);
            && r.Some? && r.value.top == st.top + [ItemTree(item, lines).0]
            && HelpAt(r.value.dp, ItemTree(item, lines).1)
            && (r.value.inter.Some? <==> st.inter.Some? || Opens(item))
            && (r.value.inter.Some? ==> r.value.inter.value != [])
            && r.value.cur == if IsGroup(item) && st.inter.Some? then st.inter.value else []
  {
    match item
    case Single(p) => DoPartTree(st, p, lines);
    case Keywords(alts) =>
      var none: seq<seq<Token>> := [];
      assert none + [[]] == [[]];
      DoAltsTree(OpenKeyword(st), alts, lines, st.top, []);
      assert [] + AltsTree(alts, lines).0 == AltsTree(alts, lines).0;
  }

  /** With the intermediate vector already set (or not), some top-level group is followed by
      another token. */
  predicate StaleFrom(set_: bool, items: seq<Item>)
    decreases |items|
  {
    items != [] &&
    if set_ && IsGroup(items[0]) then |items| > 1 else StaleFrom(set_ || Opens(items[0]), items[1..])
  }

  lemma {:induction false} DoItemsFaithful(st: State, items: seq<Item>, lines: seq<string>)
    requires AtTop(st) && HelpAt(st.dp, lines) && WfItems(items) && !StaleFrom(st.inter.Some?, items)
    ensures var r := DoItems(st, items); r.Some? && r.value.top == st.top + Tree(items, lines)
    decreases |items|
  {
    hide DoItem, ItemTree, Good, HelpAt;
    if items != [] {
      DoItemTree(st, items[0], lines);
      var st1 := DoItem(st, items[0]).value;
      var (t, rest) := ItemTree(items[0], lines);
      assert st.top + [t] + Tree(items[1..], rest) == st.top + Tree(items, lines);
      if st1.cur == [] {
        DoItemsFaithful(st1, items[1..], rest);
      } else {
        assert items[1..] == [] && Tree(items[1..], rest) == [];
      }
    }
  }

  // ----- A stale intermediate vector swallows the next token -----

  lemma {:induction false} AppendKeepsKinds(v: seq<Token>, path: Path, t: Token)
    requires ValidPath(v, path) && path != []
    ensures forall i | 0 <= i < |v| :: AppendAt(v, path, t)[i].Keyword? == v[i].Keyword?
  {
  }

  /** Tokens read while `cur` is below the top level leave the top level as long as it was. */
  lemma {:induction false} DoPartsBelow(st: State, parts: seq<Part>)
    requires Good(st) && st.cur != []
    ensures var r := DoParts(st, parts);
            && |r.top| == |st.top| && r.cur == st.cur && AtKeyword(r) == AtKeyword(st)
            && (r.inter == st.inter || r.inter == Some(st.cur))
    decreases |parts|
  {
    if parts != [] {
      DoPartBelow(st, parts[0]);
      DoPartsBelow(DoPart(st, parts[0]), parts[1..]);
    }
  }

  lemma {:induction false} AddWordsBelow(st: State, ws: seq<string>)
    requires Good(st) && st.cur != []
    ensures var r := AddWords(st, ws);
            |r.top| == |st.top| && r.inter == st.inter && AtKeyword(r) == AtKeyword(st)
    decreases |ws|
  {
    if ws != [] {
      AddWordKeepsGood(st, ws[0]);
      AppendKeepsKinds(st.top, st.cur, Terminal(ws[0], ReadDesc(st.dp).0));
      AddWordsBelow(AddWord(st, ws[0]), ws[1..]);
    }
  }

  lemma DoPartBelow(st: State, p: Part)
    requires Good(st) && st.cur != []
    ensures var r := DoPart(st, p);
            && |r.top| == |st.top| && r.cur == st.cur && AtKeyword(r) == AtKeyword(st)
            && (r.inter == st.inter || r.inter == Some(st.cur))
  {
    match p
    case Word(w) => AppendKeepsKinds(st.top, st.cur, Terminal(w, ReadDesc(st.dp).0));
    case Group(ws, trailing) =>
      AppendKeepsKinds(st.top, st.cur, Multiple([]));
      AddWordsBelow(OpenGroup(st), ws);
  }

  /** Between tokens, possibly in a stale vector; then the top level does not end in a keyword
      group. */
  ghost predicate Loose(st: State) {
    Good(st) && (st.inter.Some? ==> st.inter.value != []) && (st.cur != [] ==> !AtKeyword(st))
  }

  lemma DoItemLength(st: State, item: Item, lines: seq<string>)
    requires Loose(st) && WfItem(item) && HelpAt(st.dp, lines)
    ensures var r := DoItem(st, item);
            r.Some? ==> && Loose(r.value) && (exists ls :: HelpAt(r.value.dp, ls))
                        && |r.value.top| == |st.top| + (if st.cur == [] then 1 else 0)
  {
    hide HelpAt, ReadDesc;
    if st.cur == [] {
      DoItemTree(st, item, lines);
    } else {
      match item
      case Single(p) => DoPartBelow(st, p); DoPartTree(st, p, lines);
      case Keywords(alts) =>
        var st1 := OpenKeyword(st);
        AppendKeepsKinds(st.top, st.cur, Keyword([[]]));
        DoPartsBelow(st1, alts[0]);
        DoPartsHelp(st1, alts[0], lines);
    }
  }

  lemma {:induction false} DoPartsHelp(st: State, parts: seq<Part>, lines: seq<string>)
    requires Good(st) && HelpAt(st.dp, lines)
    ensures HelpAt(DoParts(st, parts).dp, PartsTree(parts, lines).1)
    decreases |parts|
  {
    if parts != [] {
      DoPartTree(st, parts[0], lines);
      DoPartsHelp(DoPart(st, parts[0]), parts[1..], PartTree(parts[0], lines).1);
    }
  }

  lemma {:induction false} DoItemsShort(st: State, items: seq<Item>, lines: seq<string>)
    requires Loose(st) && WfItems(items) && HelpAt(st.dp, lines)
    ensures var r := DoItems(st, items);
            r.Some? ==> |r.value.top| <= |st.top| + |items| - (if st.cur != [] && items != [] then 1 else 0)
    decreases |items|
  {
    if items != [] {
      DoItemLength(st, items[0], lines);
      var r := DoItem(st, items[0]);
      if r.Some? {
        var ls :| HelpAt(r.value.dp, ls);
        DoItemsShort(r.value, items[1..], ls);
      }
    }
  }

  lemma {:induction false} DoItemsUnfaithful(st: State, items: seq<Item>, lines: seq<string>)
    requires AtTop(st) && HelpAt(st.dp, lines) && WfItems(items) && StaleFrom(st.inter.Some?, items)
    ensures var r := DoItems(st, items); r.Some? ==> |r.value.top| < |st.top| + |items|
    decreases |items|
  {
    DoItemTree(st, items[0], lines);
    var st1 := DoItem(st, items[0]).value;
    if st.inter.Some? && IsGroup(items[0]) {
      DoItemsShort(st1, items[1..], ItemTree(items[0], lines).1);
    } else {
      DoItemsUnfaithful(st1, items[1..], ItemTree(items[0], lines).1);
    }
  }

  // ----- Round trip -----

  /** A keyword group holding a multiple, a later top-level multiple, and a token after that. */
  ghost predicate Stale(items: seq<Item>) {
    exists i, j | 0 <= i < j < |items| - 1 :: Opens(items[i]) && IsGroup(items[j])
  }

  lemma {:induction false} StaleFromMeans(set_: bool, items: seq<Item>)
    ensures StaleFrom(set_, items) <==>
            Stale(items) || (set_ && exists j | 0 <= j < |items| - 1 :: IsGroup(items[j]))
    decreases |items|
  {
    if items != [] {
      var rest := items[1..];
      StaleFromMeans(set_ || Opens(items[0]), rest);
      if Stale(rest) {
        var i, j :| 0 <= i < j < |rest| - 1 && Opens(rest[i]) && IsGroup(rest[j]);
        assert Opens(items[i + 1]) && IsGroup(items[j + 1]);
      }
      if exists j | 0 <= j < |rest| - 1 :: IsGroup(rest[j]) {
        var j :| 0 <= j < |rest| - 1 && IsGroup(rest[j]);
        assert IsGroup(items[j + 1]);
      }
      if exists j | 0 <= j < |items| - 1 :: IsGroup(items[j]) {
        var j :| 0 <= j < |items| - 1 && IsGroup(items[j]);
        assert j > 0 ==> IsGroup(rest[j - 1]);
      }
      if Stale(items) {
        var i, j :| 0 <= i < j < |items| - 1 && Opens(items[i]) && IsGroup(items[j]);
        assert IsGroup(rest[j - 1]);
        assert i > 0 ==> Opens(rest[i - 1]);
      }
    }
  }

  /** Parsing the printed form of a command gives back exactly the tree it stands for, with the
      help lines in order, if and only if no token follows a multiple that follows a keyword
      group with a multiple in it. */
  lemma ParsePrintRoundTrip(items: seq<Item>, lines: seq<string>)
    requires WfItems(items) && WfLines(lines)
    ensures Parse(Print(items), HelpText(lines)) == Parsed(Tree(items, lines)) <==> !Stale(items)
  {
    var st := Init("", HelpText(lines));
    assert st.(rest := Print(items)) == Init(Print(items), HelpText(lines));
    RunItems(st, items);
    StaleFromMeans(false, items);
    if Stale(items) {
      DoItemsUnfaithful(st, items, lines);
    } else {
      DoItemsFaithful(st, items, lines);
      assert [] + Tree(items, lines) == Tree(items, lines);
    }
  }

  /** In particular when a keyword group, if there is one, is the last token. */
  lemma KeywordLastRoundTrip(items: seq<Item>, lines: seq<string>)
    requires WfItems(items) && WfLines(lines)
    requires forall i | 0 <= i < |items| :: items[i].Keywords? ==> i == |items| - 1
    ensures Parse(Print(items), HelpText(lines)) == Parsed(Tree(items, lines))
  {
    ParsePrintRoundTrip(items, lines);
  }

  /** "{a (b)} (c) d" is such a command: d ends up inside the keyword group. */
  lemma StaleVectorExample(items: seq<Item>)
    requires items == [Keywords([[Word("a"), Group(["b"], false)]]), Single(Group(["c"], false)), Single(Word("d"))]
    ensures WfItems(items) && Parse(Print(items), "") != Parsed(Tree(items, []))
  {
    var alt := items[0].alts[0];
    assert WfPart(alt[0]) && WfPart(alt[1]) && WfAlt(alt);
    assert alt[1].Group? && HasGroup(alt);
    assert Opens(items[0]) && IsGroup(items[1]);
    ParsePrintRoundTrip(items, []);
  }

  // ----- The parser as it runs -----

  method SkipBlank(text: string) returns (s: string)
    ensures s == SkipSpace(text)
  {
    var i := 0;
    while i < |text| && IsSpace(text[i])
      invariant 0 <= i <= |text| && SkipSpace(text[i..]) == SkipSpace(text)
    {
      assert text[i..][1..] == text[i + 1..];
      i := i + 1;
    }
    s := text[i..];
  }

  method LineEnd(text: string) returns (i: nat)
    ensures i == LineLength(text)
  {
    i := 0;
    while i < |text| && text[i] != '\r' && text[i] != '\n'
      invariant 0 <= i <= |text| && LineLength(text) == i + LineLength(text[i..])
    {
      assert text[i..][1..] == text[i + 1..];
      i := i + 1;
    }
  }

  class FormatParser {
    const format: string
    var top: seq<Token>
    var cur: Path
    var inter: Option<Path>
    var cp: nat
    var dp: string
    var inKeyword: nat
    var inMultiple: bool
    var justRead: bool

    constructor (format: string, help: string)
      ensures cp <= |this.format| && View() == Init(format, help)
    {
      this.format := format;
      top, cur, inter, cp, dp := [], [], None, 0, help;
      inKeyword, inMultiple, justRead := 0, false, false;
    }

    function View(): State
      reads this
      requires cp <= |format|
    {
      State(top, cur, inter, format[cp..], dp, inKeyword, inMultiple, justRead)
    }

    /** Moves past white space. */
    method SkipBlanks()
      requires cp <= |format|
      modifies `cp
      ensures cp <= |format| && format[cp..] == SkipSpace(old(format[cp..]))
    {
      while cp < |format| && IsSpace(format[cp])
        invariant cp <= |format| && SkipSpace(format[cp..]) == SkipSpace(old(format[cp..]))
      {
        assert format[cp..][1..] == format[cp + 1..];
        cp := cp + 1;
      }
    }

    /** Reads the next help line. */
    method DescStr() returns (desc: Option<string>)
      modifies `dp
      ensures (desc, dp) == ReadDesc(old(dp))
    {
      var s := SkipBlank(dp);
      if s == "" { return None; }
      var n := LineEnd(s);
      desc, dp := Some(s[..n]), s[n..];
    }

    method StartKeyword() returns (r: Step)
      requires cp < |format| && Good(View())
      modifies this
      ensures cp <= |format| && r == BeginKeyword(old(View())) && (r.More? ==> r.st == View())
    {
      if inKeyword != 0 || inMultiple { return Fail("Unexpected '{'"); }
      cp := cp + 1;
      inKeyword := 1;
      var slot := |VectorAt(top, cur)|;
      top := AppendAt(top, cur, Keyword([[]]));
      cur := cur + [Hop(slot, 0)];
      r := More(View());
    }

    method StartMultiple() returns (r: Step)
      requires cp < |format| && Good(View())
      modifies this
      ensures cp <= |format| && r == BeginMultiple(old(View())) && (r.More? ==> r.st == View())
    {
      if inKeyword == 1 { return Fail("Keyword starting with '('"); }
      if inMultiple { return Fail("Nested group"); }
      cp := cp + 1;
      inMultiple, justRead := true, false;
      var slot := |VectorAt(top, cur)|;
      top := AppendAt(top, cur, Multiple([]));
      if cur != [] { inter := Some(cur); }
      cur := cur + [Hop(slot, 0)];
      r := More(View());
    }

    method StopKeyword() returns (r: Step)
      requires cp < |format|
      modifies this
      ensures cp <= |format| && r == EndKeyword(old(View())) && (r.More? ==> r.st == View())
    {
      if inMultiple || inKeyword == 0 { return Fail("Unexpected '}'"); }
      if inKeyword == 1 { return Fail("Empty keyword group"); }
      cp := cp + 1;
      inKeyword := 0;
      cur := [];
      r := More(View());
    }

    method StopMultiple() returns (r: Step)
      requires cp < |format| && Good(View())
      modifies this
      ensures cp <= |format| && r == EndMultiple(old(View())) && (r.More? ==> r.st == View())
    {
      if !inMultiple { return Fail("Unepexted ')'"); }
      if VectorAt(top, cur) == [] { return Fail("Empty multiple section"); }
      if !justRead {
        var dummy := DescStr();
      }
      cp := cp + 1;
      inMultiple := false;
      cur := if inter.Some? then inter.value else [];
      r := More(View());
    }

    method Pipe() returns (r: Step)
      requires cp < |format|
      modifies this
      ensures cp <= |format| && r == HandlePipe(old(View())) && (r.More? ==> r.st == View())
    {
      if inMultiple {
        justRead := false;
        cp := cp + 1;
      } else if inKeyword != 0 {
        if top == [] || !top[|top| - 1].Keyword? { return Crash; }
        inKeyword := 1;
        cp := cp + 1;
        var k := |top| - 1;
        cur := [Hop(k, |top[k].alts|)];
        top := top[k := Keyword(top[k].alts + [[]])];
      } else {
        return Fail("Unexpected '|'");
      }
      r := More(View());
    }

    /** Reads a word of the format text. */
    method ScanWord() returns (w: string)
      requires cp <= |format|
      modifies `cp
      ensures old(cp) <= cp <= |format|
      ensures var n := WordLength(old(format[cp..]));
              w == old(format[cp..])[..n] && format[cp..] == old(format[cp..])[n..]
    {
      var start := cp;
      while cp < |format| && WordChar(format[cp])
        invariant start <= cp <= |format|
        invariant WordLength(format[start..]) == cp - start + WordLength(format[cp..])
      {
        assert format[cp..][1..] == format[cp + 1..];
        cp := cp + 1;
      }
      assert WordLength(format[cp..]) == 0;
      w := format[start..cp];
    }

    method TakeWord() returns (r: Step)
      requires cp < |format| && Good(View())
      modifies this
      ensures cp <= |format| && r == ReadWord(old(View())) && (r.More? ==> r.st == View())
    {
      hide WordLength, ReadDesc, AppendAt;
      var w := ScanWord();
      var desc := DescStr();
      top := AppendAt(top, cur, Terminal(w, desc));
      if inKeyword == 1 { inKeyword := 2; }
      justRead := true;
      r := More(View());
    }

    /** Builds the token tree of a command. */
    method ParseFormat() returns (r: Result)
      requires cp <= |format| && Good(View())
      modifies this
      ensures r == Run(old(View()))
    {
      while true
        invariant cp <= |format| && Good(View()) && Run(View()) == Run(old(View()))
        decreases |format| - cp
      {
        ghost var before := View();
        SkipBlanks();
        if cp == |format| {
          return Finish(View());
        }
        var step;
        ghost var here := View();
        DispatchProgress(here);
        match format[cp] {
          case '{' => step := StartKeyword();
          case '(' => step := StartMultiple();
          case '}' => step := StopKeyword();
          case ')' => step := StopMultiple();
          case '|' => step := Pipe();
          case _ => step := TakeWord();
        }
        assert step == Dispatch(here);
        match step {
          case More(_) =>
          case Fail(m) => return Rejected(m);
          case Crash => return Crashed;
        }
      }
    }
  }
}
