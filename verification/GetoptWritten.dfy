/** What option decoding means, told from the outside: options written out as arguments in any of
    the documented ways are read back as those options. */
module GetoptWritten {
  import opened Types
  import opened Getopt

  // ----- The option string -----

  /** c occurs in s first at index k. */
  predicate First(s: string, c: char, k: nat) {
    k < |s| && s[k] == c && forall i | 0 <= i < k :: s[i] != c
  }

  predicate ColonAt(s: string, k: nat) {
    k < |s| && s[k] == ':'
  }

  /** c is an option and no colon follows it. */
  predicate IsFlag(optstring: string, c: char) {
    c != ':' && exists k | 0 <= k < |optstring| :: First(optstring, c, k) && !ColonAt(optstring, k + 1)
  }

  /** c is an option and exactly one colon follows it. */
  predicate NeedsArgument(optstring: string, c: char) {
    && c != ':'
    && exists k | 0 <= k < |optstring| ::
         First(optstring, c, k) && ColonAt(optstring, k + 1) && !ColonAt(optstring, k + 2)
  }

  /** c is an option and two colons follow it. */
  predicate MayHaveArgument(optstring: string, c: char) {
    && c != ':'
    && exists k | 0 <= k < |optstring| ::
         First(optstring, c, k) && ColonAt(optstring, k + 1) && ColonAt(optstring, k + 2)
  }

  lemma {:induction false} IndexOfFirst(s: string, c: char, k: nat)
    requires First(s, c, k)
    ensures IndexOf(s, c) == Some(k)
  {
    if k > 0 {
      assert s[0] != c;
      IndexOfFirst(s[1..], c, k - 1);
    }
  }

  lemma {:induction false} IndexOfNone(s: string, c: char)
    requires c !in s
    ensures IndexOf(s, c) == None
  {
    if s != "" {
      assert s[0] in s;
      IndexOfNone(s[1..], c);
    }
  }

  // ----- Long options -----

  /** The name typed stands for option k: it is its name, or an abbreviation of no other. */
  predicate Denotes(opts: seq<LongOpt>, name: string, k: nat) {
    && k < |opts|
    && (|| (opts[k].name == name && forall j | 0 <= j < k :: opts[j].name != name)
        || (name <= opts[k].name && forall j | 0 <= j < |opts| && j != k :: !(name <= opts[j].name)))
  }

  lemma {:induction false} FindExact(opts: seq<LongOpt>, name: string, k: nat, i: nat, sofar: Found)
    requires i <= k < |opts| && opts[k].name == name && forall j | 0 <= j < k :: opts[j].name != name
    requires sofar.Unique? ==> sofar.index < i && Abbreviates(name, opts[sofar.index])
    ensures FindLong(opts, name, i, sofar) == Unique(k)
    decreases k - i
  {
    if i < k {
      var next := if !Abbreviates(name, opts[i]) then sofar else if sofar == NotFound then Unique(i) else Ambiguous;
      FindExact(opts, name, k, i + 1, next);
    }
  }

  lemma {:induction false} FindOnly(opts: seq<LongOpt>, name: string, k: nat, i: nat, sofar: Found)
    requires i <= |opts| && k < |opts| && name <= opts[k].name
    requires forall j | 0 <= j < |opts| && j != k :: !(name <= opts[j].name)
    requires sofar == if i <= k then NotFound else Unique(k)
    ensures FindLong(opts, name, i, sofar) == Unique(k)
    decreases |opts| - i
  {
    if i < |opts| {
      if i == k {
        if name != opts[k].name { FindOnly(opts, name, k, i + 1, Unique(k)); }
      } else {
        FindOnly(opts, name, k, i + 1, sofar);
      }
    }
  }

  lemma FindDenoted(opts: seq<LongOpt>, name: string, k: nat)
    requires Denotes(opts, name, k)
    ensures FindLong(opts, name, 0, NotFound) == Unique(k)
  {
    if opts[k].name == name && forall j | 0 <= j < k :: opts[j].name != name {
      FindExact(opts, name, k, 0, NotFound);
    } else {
      FindOnly(opts, name, k, 0, NotFound);
    }
  }

  /** Abbreviations of two options and the name of none. */
  predicate IsAmbiguous(opts: seq<LongOpt>, name: string) {
    && (forall j | 0 <= j < |opts| :: opts[j].name != name)
    && exists a, b | 0 <= a < b < |opts| :: name <= opts[a].name && name <= opts[b].name
  }

  /** How many of the options from i on the name abbreviates. */
  function Abbreviated(opts: seq<LongOpt>, name: string, i: nat): nat
    requires i <= |opts|
    decreases |opts| - i
  {
    if i == |opts| then 0 else (if name <= opts[i].name then 1 else 0) + Abbreviated(opts, name, i + 1)
  }

  lemma {:induction false} AbbreviatedAtLeast(opts: seq<LongOpt>, name: string, i: nat, a: nat)
    requires i <= a < |opts| && name <= opts[a].name
    ensures Abbreviated(opts, name, i) >= 1 + Abbreviated(opts, name, a + 1)
    decreases a - i
  {
    if i < a { AbbreviatedAtLeast(opts, name, i + 1, a); }
  }

  lemma {:induction false} FindCounts(opts: seq<LongOpt>, name: string, i: nat, sofar: Found)
    requires i <= |opts| && forall j | 0 <= j < |opts| :: opts[j].name != name
    requires sofar.Unique? ==> sofar.index < i && Abbreviates(name, opts[sofar.index])
    ensures var n := Abbreviated(opts, name, i);
            var f := FindLong(opts, name, i, sofar);
            && (n == 0 ==> f == sofar)
            && (sofar.Ambiguous? || (sofar.Unique? && n >= 1) || n >= 2 ==> f == Ambiguous)
    decreases |opts| - i
  {
    if i < |opts| {
      var next := if !Abbreviates(name, opts[i]) then sofar else if sofar == NotFound then Unique(i) else Ambiguous;
      FindCounts(opts, name, i + 1, next);
    }
  }

  lemma FindAmbiguous(opts: seq<LongOpt>, name: string)
    requires IsAmbiguous(opts, name)
    ensures FindLong(opts, name, 0, NotFound) == Ambiguous
  {
    var a, b :| 0 <= a < b < |opts| && name <= opts[a].name && name <= opts[b].name;
    AbbreviatedAtLeast(opts, name, 0, a);
    AbbreviatedAtLeast(opts, name, a + 1, b);
    FindCounts(opts, name, 0, NotFound);
  }

  lemma {:induction false} NoneAbbreviated(opts: seq<LongOpt>, name: string, i: nat)
    requires i <= |opts| && forall j | 0 <= j < |opts| :: !(name <= opts[j].name)
    ensures Abbreviated(opts, name, i) == 0
    decreases |opts| - i
  {
    if i < |opts| { NoneAbbreviated(opts, name, i + 1); }
  }

  lemma {:induction false} NameEnds(name: string, more: string)
    requires '=' !in name && (more == "" || more[0] == '=')
    ensures NameEnd(name + more) == |name|
  {
    if name == "" {
      assert name + more == more;
    } else {
      assert (name + more)[0] == name[0] && name[0] in name && (name + more)[1..] == name[1..] + more;
      NameEnds(name[1..], more);
    }
  }

  // ----- Options written as arguments -----

  /** How a cluster of flags ends: with nothing, with an option whose argument is attached, is the
      next element, or is left out. */
  datatype Ending = Nothing | Attached(c: char, arg: string) | Separate(c: char, arg: string) | Bare(c: char)

  datatype LongValue = NoValue | EqualsValue(v: string) | NextValue(v: string)

  datatype Opt =
    | Short(flags: string, ending: Ending)
    | LongName(index: nat, name: string, single: bool, value: LongValue)

  function EndingText(e: Ending): string {
    match e
    case Nothing => ""
    case Attached(c, arg) => [c] + arg
    case Separate(c, _) => [c]
    case Bare(c) => [c]
  }

  function ValueText(v: LongValue): string {
    if v.EqualsValue? then "=" + v.v else ""
  }

  predicate EndingAllowed(optstring: string, e: Ending) {
    match e
    case Nothing => true
    case Attached(c, arg) => arg != "" && (NeedsArgument(optstring, c) || MayHaveArgument(optstring, c))
    case Separate(c, _) => NeedsArgument(optstring, c)
    case Bare(c) => MayHaveArgument(optstring, c)
  }

  predicate ValueAllowed(hasArg: nat, v: LongValue) {
    match v
    case NoValue => hasArg != 1
    case EqualsValue(_) => hasArg != 0
    case NextValue(_) => hasArg == 1
  }

  /** The option is one the specification knows, written as it may be. */
  predicate Allowed(spec: Spec, o: Opt) {
    match o
    case Short(flags, e) =>
      var text := flags + EndingText(e);
      && text != "" && text[0] != '-' && (forall i | 0 <= i < |flags| :: IsFlag(spec.optstring, flags[i]))
      && EndingAllowed(spec.optstring, e)
      && (spec.longopts == None || !spec.longOnly || |text| == 1)
    case LongName(k, name, single, v) =>
      && spec.longopts.Some? && Denotes(spec.longopts.value, name, k) && name != "" && '=' !in name
      && ValueAllowed(spec.longopts.value[k].hasArg, v)
      && (single ==>
            && spec.longOnly && name[0] != '-'
            && (|name + ValueText(v)| > 1 || name[0] !in spec.optstring))
  }

  function Written(o: Opt): seq<string> {
    match o
    case Short(flags, e) => ["-" + (flags + EndingText(e))] + if e.Separate? then [e.arg] else []
    case LongName(_, name, single, v) =>
      [(if single then "-" else "--") + (name + ValueText(v))] + if v.NextValue? then [v.v] else []
  }

  function Flags(flags: string): seq<Report> {
    seq(|flags|, i requires 0 <= i < |flags| => Report(Char(flags[i]), None))
  }

  /** The option as it is reported. */
  function Meant(o: Opt): seq<Report> {
    match o
    case Short(flags, e) => Flags(flags) + EndingMeant(e)
    case LongName(k, _, _, v) => [Report(Long(k), if v.NoValue? then None else Some(v.v))]
  }

  function EndingMeant(e: Ending): seq<Report> {
    match e
    case Nothing => []
    case Attached(c, arg) => [Report(Char(c), Some(arg))]
    case Separate(c, arg) => [Report(Char(c), Some(arg))]
    case Bare(c) => [Report(Char(c), None)]
  }

  // ----- Reading one option back -----

  lemma FlagDecodes(spec: Spec, text: string, next: Option<string>)
    requires text != "" && IsFlag(spec.optstring, text[0])
    ensures DecodeShort(spec, text, next) == Decoded(Char(text[0]), if text[1..] == "" then 1 else 0, text[1..], None)
  {
    var k :| 0 <= k < |spec.optstring| && First(spec.optstring, text[0], k) && !ColonAt(spec.optstring, k + 1);
    IndexOfFirst(spec.optstring, text[0], k);
  }

  lemma NeedsIndex(s: string, c: char) returns (k: nat)
    requires NeedsArgument(s, c)
    ensures c != ':' && IndexOf(s, c) == Some(k) && CharAt(s, k + 1, ':') && !CharAt(s, k + 2, ':')
  {
    k :| 0 <= k < |s| && First(s, c, k) && ColonAt(s, k + 1) && !ColonAt(s, k + 2);
    IndexOfFirst(s, c, k);
  }

  lemma MayHaveIndex(s: string, c: char) returns (k: nat)
    requires MayHaveArgument(s, c)
    ensures c != ':' && IndexOf(s, c) == Some(k) && CharAt(s, k + 1, ':') && CharAt(s, k + 2, ':')
  {
    k :| 0 <= k < |s| && First(s, c, k) && ColonAt(s, k + 1) && ColonAt(s, k + 2);
    IndexOfFirst(s, c, k);
  }

  lemma EndingDecodes(spec: Spec, e: Ending, next: Option<string>)
    requires !e.Nothing? && EndingAllowed(spec.optstring, e) && (e.Separate? ==> next == Some(e.arg))
    ensures DecodeShort(spec, EndingText(e), next)
         == Decoded(Char(e.c), if e.Separate? then 2 else 1, "", if e.Bare? then None else Some(e.arg))
  {
    hide NeedsArgument, MayHaveArgument, IndexOf, CharAt;
    var text := EndingText(e);
    assert text[0] == e.c && text[1..] == if e.Attached? then e.arg else "";
    if !e.Bare? && NeedsArgument(spec.optstring, e.c) {
      var k := NeedsIndex(spec.optstring, e.c);
    } else {
      var k := MayHaveIndex(spec.optstring, e.c);
    }
  }

  lemma EndingReadBack(spec: Spec, elem: string, e: Ending, next: Option<string>)
    requires !NonOption(elem) && !TriesLong(spec, elem) && !e.Nothing?
    requires EndingAllowed(spec.optstring, e) && (e.Separate? ==> next == Some(e.arg))
    ensures EndingText(e) != "" && ElementReports(spec, elem, EndingText(e), next) == EndingMeant(e)
    ensures Span(spec, elem, EndingText(e), next) == if e.Separate? then 2 else 1
  {
    hide DecodeShort, TriesLong, EndingAllowed;
    EndingDecodes(spec, e, next);
  }

  /** A flag in front of a text reports itself and leaves the rest. */
  lemma FlagReadBack(spec: Spec, elem: string, text: string, next: Option<string>)
    requires !NonOption(elem) && !TriesLong(spec, elem) && text != "" && IsFlag(spec.optstring, text[0])
    ensures ElementReports(spec, elem, text, next)
         == [Report(Char(text[0]), None)] + if text[1..] == "" then [] else ElementReports(spec, elem, text[1..], next)
    ensures Span(spec, elem, text, next) == if text[1..] == "" then 1 else Span(spec, elem, text[1..], next)
  {
    hide DecodeShort, TriesLong, IsFlag;
    FlagDecodes(spec, text, next);
  }

  lemma {:induction false} ShortReadBack(spec: Spec, elem: string, flags: string, e: Ending, next: Option<string>)
    requires !NonOption(elem) && !TriesLong(spec, elem) && flags + EndingText(e) != ""
    requires forall i | 0 <= i < |flags| :: IsFlag(spec.optstring, flags[i])
    requires EndingAllowed(spec.optstring, e) && (e.Separate? ==> next == Some(e.arg))
    ensures ElementReports(spec, elem, flags + EndingText(e), next) == Flags(flags) + EndingMeant(e)
    ensures Span(spec, elem, flags + EndingText(e), next) == if e.Separate? then 2 else 1
    decreases |flags|
  {
    hide TriesLong, NonOption, IsFlag, EndingAllowed, ElementReports, Span;
    var text := flags + EndingText(e);
    if flags == "" {
      assert text == EndingText(e) && Flags(flags) == [];
      EndingReadBack(spec, elem, e, next);
    } else {
      var rest := flags[1..];
      assert text[0] == flags[0] && text[1..] == rest + EndingText(e);
      FlagReadBack(spec, elem, text, next);
      assert Flags(flags) == [Report(Char(flags[0]), None)] + Flags(rest);
      if text[1..] != "" {
        ShortReadBack(spec, elem, rest, e, next);
        Regrouped([Report(Char(flags[0]), None)], Flags(rest), EndingMeant(e));
      }
    }
  }

  lemma LongReadBack(spec: Spec, elem: string, o: Opt, next: Option<string>)
    requires o.LongName? && Allowed(spec, o) && !NonOption(elem) && TriesLong(spec, elem)
    requires o.value.NextValue? ==> next == Some(o.value.v)
    ensures o.name + ValueText(o.value) != ""
    ensures ElementReports(spec, elem, o.name + ValueText(o.value), next) == Meant(o)
    ensures Span(spec, elem, o.name + ValueText(o.value), next) == if o.value.NextValue? then 2 else 1
  {
    hide TriesLong, DecodeShort, FindLong, NameEnd;
    var text := o.name + ValueText(o.value);
    NameEnds(o.name, ValueText(o.value));
    assert text[..|o.name|] == o.name;
    FindDenoted(spec.longopts.value, o.name, o.index);
    assert o.value.EqualsValue? ==> |o.name| < |text| && text[|o.name| + 1..] == o.value.v;
  }

  /** One written option, whatever follows it, is read back as what was meant, and uses up exactly
      the elements it was written in. */
  lemma OptionReadBack(spec: Spec, o: Opt, rest: seq<string>)
    requires Allowed(spec, o)
    ensures var args := Written(o) + rest;
            && !NonOption(args[0]) && args[0] != "--" && ElementSpan(spec, args) == |Written(o)|
            && ElementReports(spec, args[0], Start(spec, args[0]), NextOf(args)) == Meant(o)
  {
    hide ElementReports, Span;
    var args := Written(o) + rest;
    var elem := args[0];
    match o {
      case Short(flags, e) =>
        var text := flags + EndingText(e);
        assert elem[1..] == text && elem[1] == text[0];
        ShortIsShort(spec, flags, e);
        ShortReadBack(spec, elem, flags, e, NextOf(args));
      case LongName(k, name, single, v) =>
        var text := name + ValueText(v);
        assert text[0] == name[0];
        assert single ==> elem[1..] == text && elem[1] == name[0];
        assert !single ==> elem[2..] == text && elem[1] == '-';
        if single && name[0] !in spec.optstring { IndexOfNone(spec.optstring, name[0]); }
        LongReadBack(spec, elem, o, NextOf(args));
    }
  }

  /** A written cluster is not tried as a long option. */
  lemma ShortIsShort(spec: Spec, flags: string, e: Ending)
    requires Allowed(spec, Short(flags, e))
    ensures var elem := "-" + (flags + EndingText(e)); !NonOption(elem) && !TriesLong(spec, elem)
  {
    var text := flags + EndingText(e);
    var elem := "-" + text;
    assert elem[1] == text[0];
    if |text| == 1 { KnownIsFound(spec, flags, e); }
  }

  lemma KnownIsFound(spec: Spec, flags: string, e: Ending)
    requires Allowed(spec, Short(flags, e)) && |flags + EndingText(e)| == 1
    ensures IndexOf(spec.optstring, (flags + EndingText(e))[0]) != None
  {
    var s := spec.optstring;
    var c := (flags + EndingText(e))[0];
    if flags != "" {
      assert c == flags[0] && IsFlag(s, c);
      var k :| 0 <= k < |s| && First(s, c, k) && !ColonAt(s, k + 1);
      IndexOfFirst(s, c, k);
    } else {
      assert c == e.c;
      var k :| 0 <= k < |s| && First(s, c, k);
      IndexOfFirst(s, c, k);
    }
  }

  // ----- Whole argument lists -----

  datatype Word = AnOption(o: Opt) | AnOperand(s: string)

  predicate AllAllowed(spec: Spec, words: seq<Word>) {
    forall i | 0 <= i < |words| ::
      match words[i] case AnOption(o) => Allowed(spec, o) case AnOperand(s) => NonOption(s)
  }

  function WrittenAll(words: seq<Word>): seq<string> {
    if words == [] then []
    else (match words[0] case AnOption(o) => Written(o) case AnOperand(s) => [s]) + WrittenAll(words[1..])
  }

  function MeantAll(words: seq<Word>): seq<Report> {
    if words == [] then []
    else (match words[0] case AnOption(o) => Meant(o) case AnOperand(_) => []) + MeantAll(words[1..])
  }

  /** The elements that options were written in, and the operands. */
  function OptionElements(words: seq<Word>): seq<string> {
    if words == [] then []
    else (match words[0] case AnOption(o) => Written(o) case AnOperand(_) => []) + OptionElements(words[1..])
  }

  function OperandElements(words: seq<Word>): seq<string> {
    if words == [] then []
    else (match words[0] case AnOption(_) => [] case AnOperand(s) => [s]) + OperandElements(words[1..])
  }

  /** Options and operands written in any order, possibly followed by "--" and anything at all, are
      read back: the options meant are reported in order, the elements they were written in and
      the "--" are the options, and the operands with all that follows "--" are the operands. */
  lemma {:induction false} ReadBack(spec: Spec, words: seq<Word>, tail: seq<string>)
    requires AllAllowed(spec, words) && (tail == [] || tail[0] == "--")
    ensures var args := WrittenAll(words) + tail;
            && Reports(spec, args) == MeantAll(words)
            && Options(spec, args) == OptionElements(words) + (if tail == [] then [] else ["--"])
            && Operands(spec, args) == OperandElements(words) + (if tail == [] then [] else tail[1..])
    decreases |words|
  {
    hide Allowed, NonOption, Reports, Options, Operands, Written, Meant;
    if words == [] {
      assert WrittenAll(words) + tail == tail;
      TailReadBack(spec, tail);
    } else {
      var rest := WrittenAll(words[1..]) + tail;
      var ends, after := if tail == [] then [] else ["--"], if tail == [] then [] else tail[1..];
      ReadBack(spec, words[1..], tail);
      match words[0] {
        case AnOption(o) =>
          Regrouped(Written(o), WrittenAll(words[1..]), tail);
          Regrouped(Written(o), OptionElements(words[1..]), ends);
          OptionInFront(spec, o, rest);
        case AnOperand(s) =>
          Regrouped([s], WrittenAll(words[1..]), tail);
          Regrouped([s], OperandElements(words[1..]), after);
          OperandInFront(spec, s, rest);
      }
      EmptyInFront(OptionElements(words[1..]));
      EmptyInFront(OperandElements(words[1..]));
      EmptyInFront(MeantAll(words[1..]));
    }
  }

  lemma Regrouped<T>(a: seq<T>, b: seq<T>, c: seq<T>)
    ensures a + b + c == a + (b + c)
  {
  }

  lemma EmptyInFront<T>(s: seq<T>)
    ensures [] + s == s
  {
  }

  lemma TailReadBack(spec: Spec, tail: seq<string>)
    requires tail == [] || tail[0] == "--"
    ensures Reports(spec, tail) == [] && Options(spec, tail) == if tail == [] then [] else ["--"]
    ensures Operands(spec, tail) == if tail == [] then [] else tail[1..]
  {
    if tail != [] {
      var m := Mask(spec, tail);
      assert m[1..] == seq(|tail| - 1, _ => false);
      PickUniform(tail[1..], m[1..], false);
    }
  }

  lemma OptionInFront(spec: Spec, o: Opt, rest: seq<string>)
    requires Allowed(spec, o)
    ensures var args := Written(o) + rest;
            && Reports(spec, args) == Meant(o) + Reports(spec, rest)
            && Options(spec, args) == Written(o) + Options(spec, rest) && Operands(spec, args) == Operands(spec, rest)
  {
    hide ElementReports, ElementSpan, NonOption, Allowed, Meant, Written;
    var args := Written(o) + rest;
    OptionReadBack(spec, o, rest);
    var n := |Written(o)|;
    assert args[n..] == rest;
    var m := seq(n, _ => true);
    PickConcat(Written(o), m, rest, Mask(spec, rest), true);
    PickConcat(Written(o), m, rest, Mask(spec, rest), false);
    PickUniform(Written(o), m, true);
  }

  lemma OperandInFront(spec: Spec, s: string, rest: seq<string>)
    requires NonOption(s)
    ensures var args := [s] + rest;
            && Reports(spec, args) == Reports(spec, rest)
            && Options(spec, args) == Options(spec, rest) && Operands(spec, args) == [s] + Operands(spec, rest)
  {
    var args := [s] + rest;
    assert args[1..] == rest;
    var m := Mask(spec, args);
    assert m == [false] + Mask(spec, rest) && m[1..] == Mask(spec, rest);
  }

  // ----- What is refused -----

  /** What is reported for a missing argument. */
  function ForMissing(spec: Spec): Ret {
    if ColonAt(spec.optstring, 0) then Char(':') else Char('?')
  }

  /** A character that the option string does not have is reported as unknown, and reading goes on
      behind it. */
  lemma UnknownFlag(spec: Spec, c: char, rest: seq<string>)
    requires c != '-' && c !in spec.optstring && (spec.longopts == None || !spec.longOnly)
    ensures Reports(spec, [['-', c]] + rest) == [Report(Char('?'), None)] + Reports(spec, rest)
  {
    var args := [['-', c]] + rest;
    assert args[0][1..] == [c] && [c][1..] == "" && args[1..] == rest;
    IndexOfNone(spec.optstring, c);
    assert Decode(spec, args[0], [c], NextOf(args)) == Decoded(Char('?'), 1, "", None);
    OneReport(spec, args, Report(Char('?'), None), 1);
  }

  lemma OneReport(spec: Spec, args: seq<string>, r: Report, n: nat)
    requires args != [] && !NonOption(args[0]) && args[0] != "--" && Start(spec, args[0]) != "" && 0 < n <= |args|
    requires var d := Decode(spec, args[0], Start(spec, args[0]), NextOf(args));
             d.advance == n && d.ret == r.ret && d.arg == r.arg
    ensures Reports(spec, args) == [r] + Reports(spec, args[n..])
  {
    hide Decode;
    var d := Decode(spec, args[0], Start(spec, args[0]), NextOf(args));
    assert ElementReports(spec, args[0], Start(spec, args[0]), NextOf(args)) == [r];
    assert ElementSpan(spec, args) == n;
  }

  /** An option that needs an argument, with nothing behind it. */
  lemma MissingArgument(spec: Spec, c: char)
    requires c != '-' && NeedsArgument(spec.optstring, c)
    ensures Reports(spec, [['-', c]]) == [Report(ForMissing(spec), None)]
  {
    var args := [['-', c]];
    var s := spec.optstring;
    assert args[0][1..] == [c] && [c][1..] == "" && args[1..] == [];
    var k := NeedsIndex(s, c);
    assert Decode(spec, args[0], [c], NextOf(args)) == Decoded(ForMissing(spec), 1, "", None);
    OneReport(spec, args, Report(ForMissing(spec), None), 1);
  }

  /** A long name that abbreviates several options and is the name of none, that abbreviates none,
      that has a value it may not have, or that lacks one it needs. */
  lemma RefusedLong(spec: Spec, name: string, value: string, rest: seq<string>)
    requires spec.longopts.Some? && name != "" && '=' !in name && (value == "" || value[0] == '=')
    ensures var opts := spec.longopts.value;
            var args := ["--" + (name + value)] + rest;
            var refused := IsAmbiguous(opts, name) || forall j | 0 <= j < |opts| :: !(name <= opts[j].name);
            && (refused ==> Reports(spec, args) == [Report(Char('?'), None)] + Reports(spec, rest))
            && (forall k | 0 <= k < |opts| && Denotes(opts, name, k) ::
                  && (opts[k].hasArg == 0 && value != "" ==>
                        Reports(spec, args) == [Report(Char('?'), None)] + Reports(spec, rest))
                  && (opts[k].hasArg == 1 && value == "" && rest == [] ==>
                        Reports(spec, args) == [Report(ForMissing(spec), None)]))
  {
    hide FindLong, NameEnd, DecodeShort;
    var opts := spec.longopts.value;
    var text := name + value;
    var args := ["--" + text] + rest;
    assert args[0][2..] == text && args[1..] == rest && args[0][1] == '-';
    NameEnds(name, value);
    assert text[..|name|] == name;
    if IsAmbiguous(opts, name) {
      FindAmbiguous(opts, name);
      OneReport(spec, args, Report(Char('?'), None), 1);
    }
    if forall j | 0 <= j < |opts| :: !(name <= opts[j].name) {
      UnknownName(opts, name);
      OneReport(spec, args, Report(Char('?'), None), 1);
    }
    forall k | 0 <= k < |opts| && Denotes(opts, name, k)
      ensures opts[k].hasArg == 0 && value != "" ==>
                Reports(spec, args) == [Report(Char('?'), None)] + Reports(spec, rest)
      ensures opts[k].hasArg == 1 && value == "" && rest == [] ==>
                Reports(spec, args) == [Report(ForMissing(spec), None)]
    {
      FindDenoted(opts, name, k);
      if opts[k].hasArg == 0 && value != "" { OneReport(spec, args, Report(Char('?'), None), 1); }
      if opts[k].hasArg == 1 && value == "" && rest == [] { OneReport(spec, args, Report(ForMissing(spec), None), 1); }
    }
  }

  lemma UnknownName(opts: seq<LongOpt>, name: string)
    requires forall j | 0 <= j < |opts| :: !(name <= opts[j].name)
    ensures FindLong(opts, name, 0, NotFound) == NotFound
  {
    forall j | 0 <= j < |opts| ensures opts[j].name != name { assert !(name <= opts[j].name); }
    NoneAbbreviated(opts, name, 0);
    FindCounts(opts, name, 0, NotFound);
  }
}
