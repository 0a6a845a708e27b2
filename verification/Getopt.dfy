/** Argument permutation of lib/getopt.c: `exchange` rotates two adjacent blocks of argv in
    place, and the scan built on it moves every option in front of every other argument. */
module Getopt {

  import opened Types

  // ----- Block exchange -----

  /** s with the adjacent blocks [b, m) and [m, t) exchanged. */
  function Rotated<T>(s: seq<T>, b: nat, m: nat, t: nat): (r: seq<T>)
    requires b <= m <= t <= |s|
    ensures |r| == |s|
  {
    seq(|s|, x requires 0 <= x < |s| =>
      if b <= x < b + (t - m) then s[x + (m - b)] else if b + (t - m) <= x < t then s[x - (t - m)] else s[x])
  }

  lemma RotatedBlocks<T>(s: seq<T>, b: nat, m: nat, t: nat)
    requires b <= m <= t <= |s|
    ensures Rotated(s, b, m, t) == s[..b] + s[m..t] + s[b..m] + s[t..]
  {
  }

  /** s with the disjoint blocks of length n at i and j exchanged. */
  function Swapped<T>(s: seq<T>, i: nat, j: nat, n: nat): (r: seq<T>)
    requires i + n <= j && j + n <= |s|
    ensures |r| == |s|
  {
    seq(|s|, x requires 0 <= x < |s| =>
      if i <= x < i + n then s[x + (j - i)] else if j <= x < j + n then s[x - (j - i)] else s[x])
  }

  lemma SwapTopPart<T>(s: seq<T>, b: nat, m: nat, t: nat)
    requires b < m < t <= |s| && m - b < t - m
    ensures var n := m - b;
            Rotated(Swapped(s, b, t - n, n), b, m, t - n) == Rotated(s, b, m, t)
  {
  }

  lemma SwapBottomPart<T>(s: seq<T>, b: nat, m: nat, t: nat)
    requires b < m < t <= |s| && t - m <= m - b
    ensures var n := t - m;
            Rotated(Swapped(s, b, m, n), b + n, m, t) == Rotated(s, b, m, t)
  {
  }

  method SwapBlocks(argv: array<string>, i: nat, j: nat, n: nat)
    requires i + n <= j && j + n <= argv.Length
    modifies argv
    ensures argv[..] == Swapped(old(argv[..]), i, j, n)
  {
    ghost var s := argv[..];
    var k := 0;
    while k < n
      invariant 0 <= k <= n
      invariant forall x | i <= x < i + k :: argv[x] == s[x + (j - i)]
      invariant forall x | j <= x < j + k :: argv[x] == s[x - (j - i)]
      invariant forall x | 0 <= x < argv.Length && !(i <= x < i + k) && !(j <= x < j + k) :: argv[x] == s[x]
    {
      argv[i + k], argv[j + k] := argv[j + k], argv[i + k];
      k := k + 1;
    }
    assert argv[..] == Swapped(s, i, j, n);
  }

  /** The bottom block is the shorter one: it is swapped with the far end of the top block. */
  method MoveBottomUp(argv: array<string>, bottom: nat, middle: nat, top: nat)
    requires bottom < middle < top <= argv.Length && middle - bottom < top - middle
    modifies argv
    ensures Rotated(argv[..], bottom, middle, top - (middle - bottom)) == Rotated(old(argv[..]), bottom, middle, top)
  {
    SwapTopPart(argv[..], bottom, middle, top);
    SwapBlocks(argv, bottom, top - (middle - bottom), middle - bottom);
  }

  /** The top block is the shorter one: it is swapped with the near end of the bottom block. */
  method MoveTopDown(argv: array<string>, bottom: nat, middle: nat, top: nat)
    requires bottom < middle < top <= argv.Length && top - middle <= middle - bottom
    modifies argv
    ensures Rotated(argv[..], bottom + (top - middle), middle, top) == Rotated(old(argv[..]), bottom, middle, top)
  {
    SwapBottomPart(argv[..], bottom, middle, top);
    SwapBlocks(argv, bottom, middle, top - middle);
  }

  /** Exchanges two adjacent blocks in place. */
  method RotateBlocks(argv: array<string>, first: nat, last: nat, optind: nat)
    requires first <= last <= optind <= argv.Length
    modifies argv
    ensures argv[..] == Rotated(old(argv[..]), first, last, optind)
  {
    var bottom, middle, top := first, last, optind;
    while top > middle && middle > bottom
      invariant first <= bottom <= middle <= top <= optind
      invariant Rotated(argv[..], bottom, middle, top) == Rotated(old(argv[..]), first, last, optind)
      decreases top - bottom
    {
      if top - middle > middle - bottom {
        MoveBottomUp(argv, bottom, middle, top);
        top := top - (middle - bottom);
      } else {
        MoveTopDown(argv, bottom, middle, top);
        bottom := bottom + (top - middle);
      }
    }
    NothingToRotate(argv[..], bottom, middle, top);
  }

  lemma NothingToRotate<T>(s: seq<T>, b: nat, m: nat, t: nat)
    requires b <= m <= t <= |s| && (b == m || m == t)
    ensures Rotated(s, b, m, t) == s
  {
  }

  // ----- Decoding one option -----

  datatype LongOpt = LongOpt(name: string, hasArg: nat)

  /** What one call of getopt reports. */
  datatype Ret = Done | Char(c: char) | Long(index: nat)

  /** The fixed arguments of a run of calls. */
  datatype Spec = Spec(optstring: string, longopts: Option<seq<LongOpt>>, longOnly: bool)

  /** One decoded option: what is reported, how many elements it finishes, what is left of the
      current element, and the option's argument. */
  datatype Decoded = Decoded(ret: Ret, advance: nat, rest: string, arg: Option<string>)

  predicate NonOption(s: string) {
    |s| < 2 || s[0] != '-'
  }

  function IndexOf(s: string, c: char): Option<nat> {
    if s == "" then None
    else if s[0] == c then Some(0)
    else match IndexOf(s[1..], c) case None => None case Some(k) => Some(k + 1)
  }

  predicate CharAt(s: string, k: nat, c: char) {
    k < |s| && s[k] == c
  }

  /** Text after the introducing dashes. */
  function Start(spec: Spec, elem: string): string
    requires !NonOption(elem)
  {
    if spec.longopts.Some? && elem[1] == '-' then elem[2..] else elem[1..]
  }

  function MissingArg(spec: Spec): Ret {
    Char(if CharAt(spec.optstring, 0, ':') then ':' else '?')
  }

  /** A short option character; `next` is the following element, if there is one. */
  function DecodeShort(spec: Spec, text: string, next: Option<string>): Decoded
    requires text != ""
  {
    var c, rest := text[0], text[1..];
    var ends := if rest == "" then 1 else 0;
    match IndexOf(spec.optstring, c)
    case None => Decoded(Char('?'), ends, rest, None)
    case Some(k) =>
      if c == ':' then Decoded(Char('?'), ends, rest, None)
      else if !CharAt(spec.optstring, k + 1, ':') then Decoded(Char(c), ends, rest, None)
      else if rest != "" then Decoded(Char(c), 1, "", Some(rest))
      else if CharAt(spec.optstring, k + 2, ':') then Decoded(Char(c), 1, "", None)
      else if next == None then Decoded(MissingArg(spec), 1, "", None)
      else Decoded(Char(c), 2, "", next)
  }

  /** The part of a long option in front of '='. */
  function NameEnd(text: string): (k: nat)
    ensures k <= |text|
  {
    if text == "" || text[0] == '=' then 0 else 1 + NameEnd(text[1..])
  }

  datatype Found = NotFound | Ambiguous | Unique(index: nat)

  predicate Abbreviates(name: string, o: LongOpt) {
    name <= o.name
  }

  /** The loop over the long options from index i: an exact match wins at once, otherwise a
      single abbreviated match does. */
  function FindLong(opts: seq<LongOpt>, name: string, i: nat, sofar: Found): (f: Found)
    requires i <= |opts| && (sofar.Unique? ==> sofar.index < i && Abbreviates(name, opts[sofar.index]))
    ensures f.Unique? ==> f.index < |opts| && name <= opts[f.index].name
    decreases |opts| - i
  {
    if i == |opts| then sofar
    else if !Abbreviates(name, opts[i]) then FindLong(opts, name, i + 1, sofar)
    else if name == opts[i].name then Unique(i)
    else FindLong(opts, name, i + 1, if sofar == NotFound then Unique(i) else Ambiguous)
  }

  predicate TriesLong(spec: Spec, elem: string)
    requires !NonOption(elem)
  {
    && spec.longopts.Some?
    && (elem[1] == '-' || (spec.longOnly && (|elem| > 2 || IndexOf(spec.optstring, elem[1]) == None)))
  }

  /** Decodes the option at the front of `text`, the unread part of element `elem`. */
  function Decode(spec: Spec, elem: string, text: string, next: Option<string>): Decoded
    requires !NonOption(elem) && text != ""
  {
    if !TriesLong(spec, elem) then DecodeShort(spec, text, next)
    else
      var opts := spec.longopts.value;
      var end := NameEnd(text);
      match FindLong(opts, text[..end], 0, NotFound)
      case Ambiguous => Decoded(Char('?'), 1, "", None)
      case Unique(k) =>
        if end < |text| then
          if opts[k].hasArg != 0 then Decoded(Long(k), 1, "", Some(text[end + 1..]))
          else Decoded(Char('?'), 1, "", None)
        else if opts[k].hasArg != 1 then Decoded(Long(k), 1, "", None)
        else if next == None then Decoded(MissingArg(spec), 1, "", None)
        else Decoded(Long(k), 2, "", next)
      case NotFound =>
        if !spec.longOnly || elem[1] == '-' || IndexOf(spec.optstring, text[0]) == None
        then Decoded(Char('?'), 1, "", None)
        else DecodeShort(spec, text, next)
  }

  lemma DecodeProgress(spec: Spec, elem: string, text: string, next: Option<string>)
    requires !NonOption(elem) && text != ""
    ensures var d := Decode(spec, elem, text, next);
            && d.advance <= 2 && (d.advance == 2 ==> next.Some?)
            && (d.advance == 0 <==> d.rest != "") && |d.rest| < |text| && d.ret != Done
  {
  }

  // ----- Which arguments are options -----

  /** Elements used up by the option element whose unread part is `text`: itself, and the next
      one if an option in it takes that as its argument. */
  function Span(spec: Spec, elem: string, text: string, next: Option<string>): (n: nat)
    requires !NonOption(elem) && text != ""
    ensures 1 <= n <= 2 && (n == 2 ==> next.Some?)
    decreases |text|
  {
    DecodeProgress(spec, elem, text, next);
    var d := Decode(spec, elem, text, next);
    if d.advance > 0 then d.advance else Span(spec, elem, d.rest, next)
  }

  function NextOf(args: seq<string>): Option<string> {
    if |args| > 1 then Some(args[1]) else None
  }

  function ElementSpan(spec: Spec, args: seq<string>): (n: nat)
    requires args != [] && !NonOption(args[0]) && args[0] != "--"
    ensures 1 <= n <= 2 && n <= |args|
  {
    Span(spec, args[0], Start(spec, args[0]), NextOf(args))
  }

  /** What one call reports: the option and its argument. */
  datatype Report = Report(ret: Ret, arg: Option<string>)

  /** The options in the unread part `text` of an element, in order. */
  function ElementReports(spec: Spec, elem: string, text: string, next: Option<string>): seq<Report>
    requires !NonOption(elem) && text != ""
    decreases |text|
  {
    DecodeProgress(spec, elem, text, next);
    var d := Decode(spec, elem, text, next);
    [Report(d.ret, d.arg)] + if d.advance > 0 then [] else ElementReports(spec, elem, d.rest, next)
  }

  /** The options of an argument list in order, up to the first "--". */
  function Reports(spec: Spec, args: seq<string>): seq<Report>
    decreases |args|
  {
    if args == [] || args[0] == "--" then []
    else if NonOption(args[0]) then Reports(spec, args[1..])
    else
      ElementReports(spec, args[0], Start(spec, args[0]), NextOf(args)) + Reports(spec, args[ElementSpan(spec, args)..])
  }

  /** A partly read element is an option element. */
  predicate MayRead(orig: seq<string>, p: nat, nextchar: string) {
    p <= |orig| && (nextchar != "" ==> p < |orig| && !NonOption(orig[p]) && orig[p] != "--")
  }

  /** What is still to be reported when p arguments are scanned and `nextchar` is unread. */
  function Unreported(spec: Spec, orig: seq<string>, p: nat, nextchar: string): seq<Report>
    requires MayRead(orig, p, nextchar)
  {
    if nextchar == "" then Reports(spec, orig[p..])
    else
      ElementReports(spec, orig[p], nextchar, NextOf(orig[p..]))
      + Reports(spec, orig[p + ElementSpan(spec, orig[p..])..])
  }

  lemma UnreportedOperand(spec: Spec, orig: seq<string>, p: nat)
    requires p < |orig| && NonOption(orig[p])
    ensures Reports(spec, orig[p..]) == Reports(spec, orig[p + 1..])
  {
    assert orig[p..][0] == orig[p] && orig[p..][1..] == orig[p + 1..];
  }

  lemma UnreportedElement(spec: Spec, orig: seq<string>, p: nat)
    requires p < |orig| && !NonOption(orig[p]) && orig[p] != "--"
    ensures Unreported(spec, orig, p, Start(spec, orig[p])) == Reports(spec, orig[p..])
  {
    hide ElementReports, ElementSpan;
    var n := ElementSpan(spec, orig[p..]);
    assert orig[p..][0] == orig[p] && orig[p..][n..] == orig[p + n..];
  }

  lemma UnreportedEnd(spec: Spec, orig: seq<string>, p: nat)
    requires p <= |orig| && (p < |orig| ==> orig[p] == "--")
    ensures Reports(spec, orig[p..]) == []
  {
    assert p < |orig| ==> orig[p..][0] == orig[p];
  }

  lemma UnreportedDecode(spec: Spec, orig: seq<string>, p: nat, nextchar: string)
    requires p < |orig| && !NonOption(orig[p]) && orig[p] != "--" && nextchar != ""
    requires Span(spec, orig[p], nextchar, NextOf(orig[p..])) == ElementSpan(spec, orig[p..])
    ensures var d := Decode(spec, orig[p], nextchar, NextOf(orig[p..]));
            && p + d.advance <= |orig| && (d.rest != "" ==> d.advance == 0)
            && Unreported(spec, orig, p, nextchar)
               == [Report(d.ret, d.arg)] + Unreported(spec, orig, p + d.advance, d.rest)
  {
    hide Decode, Reports, ElementSpan;
    DecodeProgress(spec, orig[p], nextchar, NextOf(orig[p..]));
    var d := Decode(spec, orig[p], nextchar, NextOf(orig[p..]));
    var later := if d.advance > 0 then [] else ElementReports(spec, orig[p], d.rest, NextOf(orig[p..]));
    var others := Reports(spec, orig[p + ElementSpan(spec, orig[p..])..]);
    assert [Report(d.ret, d.arg)] + later + others == [Report(d.ret, d.arg)] + (later + others);
    assert d.advance > 0 ==> later + others == others;
  }

  /** For each argument, whether it counts as an option: option elements, their arguments and
      the first "--" do, and nothing after that "--" does. */
  function Mask(spec: Spec, args: seq<string>): (m: seq<bool>)
    ensures |m| == |args|
    decreases |args|
  {
    if args == [] then []
    else if args[0] == "--" then [true] + seq(|args| - 1, _ => false)
    else if NonOption(args[0]) then [false] + Mask(spec, args[1..])
    else
      var n := ElementSpan(spec, args);
      seq(n, _ => true) + Mask(spec, args[n..])
  }

  /** The arguments whose mask is b, in their order. */
  function Pick(args: seq<string>, mask: seq<bool>, b: bool): seq<string>
    requires |args| == |mask|
  {
    if args == [] then []
    else (if mask[0] == b then [args[0]] else []) + Pick(args[1..], mask[1..], b)
  }

  function Options(spec: Spec, args: seq<string>): seq<string> {
    Pick(args, Mask(spec, args), true)
  }

  function Operands(spec: Spec, args: seq<string>): seq<string> {
    Pick(args, Mask(spec, args), false)
  }

  lemma {:induction false} PickConcat(a: seq<string>, ma: seq<bool>, c: seq<string>, mc: seq<bool>, b: bool)
    requires |a| == |ma| && |c| == |mc|
    ensures Pick(a + c, ma + mc, b) == Pick(a, ma, b) + Pick(c, mc, b)
  {
    if a == [] {
      assert a + c == c && ma + mc == mc;
    } else {
      assert (a + c)[1..] == a[1..] + c && (ma + mc)[1..] == ma[1..] + mc;
      PickConcat(a[1..], ma[1..], c, mc, b);
    }
  }

  lemma {:induction false} PickUniform(a: seq<string>, m: seq<bool>, b: bool)
    requires |a| == |m| && forall i | 0 <= i < |m| :: m[i] == b
    ensures Pick(a, m, b) == a && Pick(a, m, !b) == []
  {
    if a != [] { PickUniform(a[1..], m[1..], b); }
  }

  /** The result is a permutation: each argument is in exactly one of the two groups. */
  lemma {:induction false} PickPartitions(args: seq<string>, mask: seq<bool>)
    requires |args| == |mask|
    ensures multiset(Pick(args, mask, true) + Pick(args, mask, false)) == multiset(args)
    ensures |Pick(args, mask, true)| + |Pick(args, mask, false)| == |args|
  {
    if args != [] {
      PickPartitions(args[1..], mask[1..]);
      var t, f := Pick(args[1..], mask[1..], true), Pick(args[1..], mask[1..], false);
      assert args == [args[0]] + args[1..];
      assert multiset(t + f) == multiset(t) + multiset(f);
      var t', f' := Pick(args, mask, true), Pick(args, mask, false);
      assert multiset(t' + f') == multiset(t') + multiset(f');
    }
  }

  // ----- The scan -----

  /** p arguments of `orig` have been scanned.  Skipped operands sit in [first, last), options
      in front of them and, up to optind, behind them. */
  ghost predicate Scanned(spec: Spec, orig: seq<string>, p: nat, argv: seq<string>, first: nat, last: nat,
                          optind: nat)
  {
    var m := Mask(spec, orig);
    && |argv| == 1 + |orig| && p <= |orig| && optind == 1 + p && 1 <= first <= last <= optind
    && argv[1..first] + argv[last..optind] == Pick(orig[..p], m[..p], true)
    && argv[first..last] == Pick(orig[..p], m[..p], false)
    && argv[optind..] == orig[p..]
    && m[p..] == Mask(spec, orig[p..])
  }

  /** Scanning n more arguments whose mask is known extends the groups by them. */
  lemma ScannedGrows(spec: Spec, orig: seq<string>, p: nat, n: nat, b: bool)
    requires p + n <= |orig|
    requires forall i | p <= i < p + n :: Mask(spec, orig)[i] == b
    ensures var m := Mask(spec, orig);
            && Pick(orig[..p + n], m[..p + n], b) == Pick(orig[..p], m[..p], b) + orig[p..p + n]
            && Pick(orig[..p + n], m[..p + n], !b) == Pick(orig[..p], m[..p], !b)
  {
    var m := Mask(spec, orig);
    assert orig[..p + n] == orig[..p] + orig[p..p + n] && m[..p + n] == m[..p] + m[p..p + n];
    PickConcat(orig[..p], m[..p], orig[p..p + n], m[p..p + n], true);
    PickConcat(orig[..p], m[..p], orig[p..p + n], m[p..p + n], false);
    PickUniform(orig[p..p + n], m[p..p + n], b);
  }

  lemma SlicesAdvance<T>(s: seq<T>, a: nat, i: nat, t: seq<T>, p: nat, n: nat)
    requires a <= i <= |s| && p + n <= |t| && s[i..] == t[p..]
    ensures i + n <= |s| && s[a..i + n] == s[a..i] + t[p..p + n] && s[i + n..] == t[p + n..]
  {
    assert s[i..][..n] == t[p..][..n] && s[i..][n..] == t[p..][n..];
    assert s[i..i + n] == s[i..][..n] && t[p..p + n] == t[p..][..n];
    assert s[a..i + n] == s[a..i] + s[i..i + n];
  }

  /** One more skipped operand. */
  lemma ScannedOperand(spec: Spec, orig: seq<string>, p: nat, argv: seq<string>, first: nat, optind: nat)
    requires Scanned(spec, orig, p, argv, first, optind, optind) && p < |orig| && NonOption(argv[optind])
    ensures Scanned(spec, orig, p + 1, argv, first, optind + 1, optind + 1)
  {
    var m := Mask(spec, orig);
    assert argv[optind] == argv[optind..][0] == orig[p..][0] && m[p] == m[p..][0];
    ScannedGrows(spec, orig, p, 1, false);
    SlicesAdvance(argv, first, optind, orig, p, 1);
    MaskAdvance(spec, orig, p, 1);
  }

  lemma MaskAdvance(spec: Spec, orig: seq<string>, p: nat, n: nat)
    requires p + n <= |orig| && Mask(spec, orig)[p..] == Mask(spec, orig[p..])
    ensures Mask(spec, orig)[p + n..] == Mask(spec, orig[p..])[n..] && orig[p + n..] == orig[p..][n..]
  {
    assert Mask(spec, orig)[p + n..] == Mask(spec, orig)[p..][n..];
  }

  /** n more elements taken as an option and its argument. */
  lemma ScannedOption(spec: Spec, orig: seq<string>, p: nat, argv: seq<string>, first: nat, last: nat, optind: nat)
    requires Scanned(spec, orig, p, argv, first, last, optind) && p < |orig|
    requires !NonOption(argv[optind]) && argv[optind] != "--"
    ensures argv[optind] == orig[p]
    ensures var n := ElementSpan(spec, orig[p..]);
            Scanned(spec, orig, p + n, argv, first, last, optind + n)
  {
    hide Pick, ElementSpan;
    var m := Mask(spec, orig);
    assert argv[optind] == argv[optind..][0] == orig[p..][0];
    var n := ElementSpan(spec, orig[p..]);
    forall i | p <= i < p + n ensures m[i] { assert m[i] == m[p..][i - p]; }
    ScannedGrows(spec, orig, p, n, true);
    SlicesAdvance(argv, last, optind, orig, p, n);
    MaskAdvance(spec, orig, p, n);
    assert argv[1..first] + argv[last..optind] + orig[p..p + n]
        == argv[1..first] + (argv[last..optind] + orig[p..p + n]);
  }

  /** After an exchange the skipped operands sit behind all options scanned so far. */
  lemma ScannedExchange(spec: Spec, orig: seq<string>, p: nat, argv: seq<string>, first: nat, last: nat, optind: nat)
    requires Scanned(spec, orig, p, argv, first, last, optind)
    ensures Scanned(spec, orig, p, Rotated(argv, first, last, optind), first + (optind - last), optind, optind)
  {
    RotatedSlices(argv, first, last, optind);
  }

  lemma RotatedSlices(argv: seq<string>, first: nat, last: nat, optind: nat)
    requires 1 <= first <= last <= optind <= |argv|
    ensures var r := Rotated(argv, first, last, optind);
            var first' := first + (optind - last);
            && r[1..first'] + r[optind..optind] == argv[1..first] + argv[last..optind]
            && r[first'..optind] == argv[first..last] && r[optind..] == argv[optind..]
  {
    var r := Rotated(argv, first, last, optind);
    var first' := first + (optind - last);
    assert r[1..first'] == argv[1..first] + argv[last..optind];
    assert r[1..first'] + r[optind..optind] == r[1..first'];
  }

  /** The stable partition that a finished run leaves behind. */
  ghost predicate Partitioned(spec: Spec, orig: seq<string>, argv: seq<string>, optind: nat) {
    && |argv| == 1 + |orig|
    && argv[1..] == Options(spec, orig) + Operands(spec, orig)
    && optind == 1 + |Options(spec, orig)|
  }

  lemma ScannedAll(spec: Spec, orig: seq<string>, argv: seq<string>, first: nat, optind: nat)
    requires Scanned(spec, orig, |orig|, argv, first, optind, optind)
    ensures Partitioned(spec, orig, argv, first)
  {
    assert orig[..|orig|] == orig && Mask(spec, orig)[..|orig|] == Mask(spec, orig);
    assert argv[1..] == argv[1..first] + argv[first..optind];
    assert argv[1..first] + argv[optind..optind] == argv[1..first];
  }

  /** From "--" on, the mask is known: it alone is an option. */
  lemma DashDashGroups(spec: Spec, orig: seq<string>, p: nat)
    requires p < |orig| && orig[p] == "--" && Mask(spec, orig)[p..] == Mask(spec, orig[p..])
    ensures var m := Mask(spec, orig);
            && Options(spec, orig) == Pick(orig[..p], m[..p], true) + [orig[p]]
            && Operands(spec, orig) == Pick(orig[..p], m[..p], false) + orig[p + 1..]
  {
    var m := Mask(spec, orig);
    forall i | p <= i < |m| ensures m[i] == (i == p) {
      assert m[i] == m[p..][i - p] == Mask(spec, orig[p..])[i - p];
    }
    ScannedGrows(spec, orig, p, 1, true);
    ScannedGrows(spec, orig, p + 1, |orig| - p - 1, false);
    assert orig[..|orig|] == orig && m[..|orig|] == m && orig[p + 1..|orig|] == orig[p + 1..];
    assert orig[p..p + 1] == [orig[p]];
  }

  /** "--" is moved in front of the skipped operands and everything behind it is an operand. */
  lemma ScannedDashDash(spec: Spec, orig: seq<string>, p: nat, argv: seq<string>, first: nat, optind: nat)
    requires Scanned(spec, orig, p, argv, first, optind, optind) && p < |orig| && argv[optind] == "--"
    ensures Partitioned(spec, orig, Rotated(argv, first, optind, optind + 1), first + 1)
  {
    ScannedBounds(spec, orig, p, argv, first, optind, optind);
    DashDashGroups(spec, orig, p);
    SlicesAdvance(argv, first, optind, orig, p, 1);
    assert argv[1..first] + argv[optind..optind] == argv[1..first];
    RotatedTail(argv, first, optind);
  }

  lemma RotatedTail(argv: seq<string>, first: nat, optind: nat)
    requires 1 <= first <= optind < |argv|
    ensures Rotated(argv, first, optind, optind + 1)[1..]
         == argv[1..first] + [argv[optind]] + (argv[first..optind] + argv[optind + 1..])
  {
    var r := Rotated(argv, first, optind, optind + 1);
    RotatedBlocks(argv, first, optind, optind + 1);
    assert r == argv[..first] + [argv[optind]] + argv[first..optind] + argv[optind + 1..];
    assert argv[..first][1..] == argv[1..first];
  }

  lemma ScannedBounds(spec: Spec, orig: seq<string>, p: nat, argv: seq<string>, first: nat, last: nat, optind: nat)
    requires Scanned(spec, orig, p, argv, first, last, optind)
    ensures 1 <= first <= last <= optind == 1 + p <= |argv| == 1 + |orig|
    ensures p < |orig| ==> argv[optind] == orig[p] == orig[p..][0]
    ensures p < |orig| ==> NextOf(orig[p..]) == if optind + 1 < |argv| then Some(argv[optind + 1]) else None
  {
    if p < |orig| {
      assert argv[optind] == argv[optind..][0];
      if optind + 1 < |argv| { assert argv[optind + 1] == argv[optind..][1]; }
    }
  }

  /** Between calls: p arguments are scanned, and if `nextchar` is not empty the option element
      after them is partly read. */
  ghost predicate BetweenCalls(spec: Spec, orig: seq<string>, p: nat, argv: seq<string>, first: nat, last: nat,
                               optind: nat, nextchar: string)
  {
    && Scanned(spec, orig, p, argv, first, last, optind)
    && (nextchar != "" ==>
          && p < |orig| && !NonOption(orig[p]) && orig[p] != "--"
          && Span(spec, orig[p], nextchar, NextOf(orig[p..])) == ElementSpan(spec, orig[p..]))
  }

  /** The state before the first option of an element is decoded. */
  lemma AtElement(spec: Spec, orig: seq<string>, p: nat, argv: seq<string>, first: nat, last: nat, optind: nat)
    requires Scanned(spec, orig, p, argv, first, last, optind) && p < |orig|
    requires !NonOption(argv[optind]) && argv[optind] != "--"
    ensures BetweenCalls(spec, orig, p, argv, first, last, optind, Start(spec, argv[optind]))
    ensures 0 < |Start(spec, argv[optind])| < |orig[p]|
  {
    ScannedBounds(spec, orig, p, argv, first, last, optind);
  }

  /** The state after one option has been decoded. */
  lemma AfterDecode(spec: Spec, orig: seq<string>, p: nat, argv: seq<string>, first: nat, last: nat, optind: nat,
                    nextchar: string)
    requires nextchar != "" && BetweenCalls(spec, orig, p, argv, first, last, optind, nextchar)
    ensures optind < |argv| && !NonOption(argv[optind])
    ensures var next := if optind + 1 < |argv| then Some(argv[optind + 1]) else None;
            var d := Decode(spec, argv[optind], nextchar, next);
            && BetweenCalls(spec, orig, p + d.advance, argv, first, last, optind + d.advance, d.rest)
            && (d.advance > 0 || 0 < |d.rest| < |nextchar|) && d.ret != Done
  {
    hide Scanned, Decode, ElementSpan;
    ScannedBounds(spec, orig, p, argv, first, last, optind);
    DecodeProgress(spec, orig[p], nextchar, NextOf(orig[p..]));
    ScannedOption(spec, orig, p, argv, first, last, optind);
  }

  lemma BetweenReads(spec: Spec, orig: seq<string>, p: nat, argv: seq<string>, first: nat, last: nat, optind: nat,
                     nextchar: string)
    requires BetweenCalls(spec, orig, p, argv, first, last, optind, nextchar)
    ensures MayRead(orig, p, nextchar)
  {
  }

  /** Between calls the decoding of the unread text is what is reported next. */
  lemma DecodeReports(spec: Spec, orig: seq<string>, p: nat, argv: seq<string>, first: nat, last: nat, optind: nat,
                      nextchar: string)
    requires nextchar != "" && BetweenCalls(spec, orig, p, argv, first, last, optind, nextchar)
    ensures optind < |argv| && !NonOption(argv[optind]) && MayRead(orig, p, nextchar)
    ensures var next := if optind + 1 < |argv| then Some(argv[optind + 1]) else None;
            var d := Decode(spec, argv[optind], nextchar, next);
            && MayRead(orig, p + d.advance, d.rest)
            && Unreported(spec, orig, p, nextchar)
               == [Report(d.ret, d.arg)] + Unreported(spec, orig, p + d.advance, d.rest)
  {
    hide Scanned, Decode, Unreported, Span;
    ScannedBounds(spec, orig, p, argv, first, last, optind);
    UnreportedDecode(spec, orig, p, nextchar);
  }

  function Min(a: nat, b: nat): nat {
    if a > b then b else a
  }

  /** The option string selects PERMUTE order and does not use the `W;` extension. */
  predicate Permutes(spec: Spec) {
    && !CharAt(spec.optstring, 0, '+') && !CharAt(spec.optstring, 0, '-')
    && match IndexOf(spec.optstring, 'W') case None => true case Some(k) => !CharAt(spec.optstring, k + 1, ';')
  }

  class Parser {
    const spec: Spec
    var optind: nat
    var first: nat     // first_nonopt
    var last: nat      // last_nonopt
    var nextchar: string

    /** The state of the first call in PERMUTE order. */
    constructor (spec: Spec)
      requires Permutes(spec)
      ensures this.spec == spec && optind == first == last == 1 && nextchar == ""
    {
      this.spec := spec;
      optind, first, last := 1, 1, 1;
      nextchar := "";
    }

    ghost predicate Between(orig: seq<string>, p: nat, argv: seq<string>)
      reads this
    {
      BetweenCalls(spec, orig, p, argv, first, last, optind, nextchar)
    }

    /** Exchanges the skipped operands with the options scanned after them. */
    method Exchange(argv: array<string>)
      requires first <= last <= optind <= argv.Length
      modifies `first, `last, argv
      ensures argv[..] == Rotated(old(argv[..]), old(first), old(last), optind)
      ensures 0 < old(first) ==> argv[0] == old(argv[0])
      ensures first == old(first) + (optind - old(last)) && last == optind
    {
      RotateBlocks(argv, first, last, optind);
      first := first + (optind - last);
      last := optind;
    }

    /** Puts skipped operands behind the options scanned since. */
    method Regroup(argv: array<string>, ghost orig: seq<string>, ghost p: nat)
      requires Scanned(spec, orig, p, argv[..], first, last, optind)
      modifies `first, `last, argv
      ensures argv[0] == old(argv[0]) && Scanned(spec, orig, p, argv[..], first, optind, optind)
    {
      hide Scanned, Rotated;
      ScannedBounds(spec, orig, p, argv[..], first, last, optind);
      ScannedExchange(spec, orig, p, argv[..], first, last, optind);
      if first == last || last == optind { NothingToRotate(argv[..], first, last, optind); }
      last, first := Min(last, optind), Min(first, optind);
      if first != last && last != optind {
        Exchange(argv);
      } else if last != optind {
        first := optind;
      }
    }

    /** Regroups, then skips further operands. */
    method SkipOperands(argv: array<string>, ghost orig: seq<string>, ghost p: nat) returns (ghost p': nat)
      requires Scanned(spec, orig, p, argv[..], first, last, optind)
      modifies `first, `last, `optind, argv
      ensures argv[0] == old(argv[0])
      ensures last == optind && p <= p' && Scanned(spec, orig, p', argv[..], first, last, optind)
      ensures optind < argv.Length ==> !NonOption(argv[optind])
      ensures p' <= |orig| && Reports(spec, orig[p..]) == Reports(spec, orig[p'..])
    {
      hide Scanned, Reports;
      Regroup(argv, orig, p);
      p' := p;
      ScannedBounds(spec, orig, p', argv[..], first, optind, optind);
      while optind < argv.Length && NonOption(argv[optind])
        invariant optind == 1 + p' <= argv.Length == 1 + |orig| && p <= p' && argv[0] == old(argv[0])
        invariant Scanned(spec, orig, p', argv[..], first, optind, optind)
        invariant Reports(spec, orig[p..]) == Reports(spec, orig[p'..])
        decreases argv.Length - optind
      {
        ScannedBounds(spec, orig, p', argv[..], first, optind, optind);
        UnreportedOperand(spec, orig, p');
        ScannedOperand(spec, orig, p', argv[..], first, optind);
        optind, p' := optind + 1, p' + 1;
        ScannedBounds(spec, orig, p', argv[..], first, optind, optind);
      }
      last := optind;
    }

    /** Ends the scan at "--": it counts as an option and all that follows as operands. */
    method StopAtDashDash(argv: array<string>, ghost orig: seq<string>, ghost p: nat)
      requires Scanned(spec, orig, p, argv[..], first, last, optind) && last == optind
      requires p < |orig| && argv[optind] == "--"
      modifies `first, `last, `optind, argv
      ensures argv[0] == old(argv[0])
      ensures Partitioned(spec, orig, argv[..], first) && last == optind == argv.Length && first <= last
    {
      ScannedDashDash(spec, orig, p, argv[..], first, optind);
      if first == last { NothingToRotate(argv[..], first, optind, optind + 1); }
      optind := optind + 1;
      if first != last && last != optind {
        Exchange(argv);
      } else if first == last {
        first := optind;
      }
      last := argv.Length;
      optind := argv.Length;
    }

    /** Moves on to the next option element, or ends the scan. */
    method NextElement(argv: array<string>, ghost orig: seq<string>, ghost p: nat) returns (done: bool, ghost p': nat)
      requires Scanned(spec, orig, p, argv[..], first, last, optind)
      modifies this, argv
      ensures argv[0] == old(argv[0]) && p <= p'
      ensures done ==> Partitioned(spec, orig, argv[..], optind) && p <= |orig| && Reports(spec, orig[p..]) == []
      ensures !done ==> nextchar != "" && Between(orig, p', argv[..]) && p' < |orig| && |nextchar| < |orig[p']|
      ensures !done ==> MayRead(orig, p', nextchar) && Unreported(spec, orig, p', nextchar) == Reports(spec, orig[p..])
    {
      hide Scanned, Partitioned, BetweenCalls, ElementSpan, Reports, Unreported;
      p' := SkipOperands(argv, orig, p);
      ScannedBounds(spec, orig, p', argv[..], first, last, optind);
      if p' == |orig| || orig[p'] == "--" {
        UnreportedEnd(spec, orig, p');
      } else {
        UnreportedElement(spec, orig, p');
      }
      if optind != argv.Length && argv[optind] == "--" {
        StopAtDashDash(argv, orig, p');
      } else if optind == argv.Length {
        ScannedAll(spec, orig, argv[..], first, optind);
      }
      if optind == argv.Length {
        if first != last { optind := first; }
        return true, p';
      }
      nextchar := Start(spec, argv[optind]);
      AtElement(spec, orig, p', argv[..], first, last, optind);
      done := false;
    }

    /** Decodes one option of the current element. */
    method DecodeNext(argv: array<string>, ghost orig: seq<string>, ghost p: nat)
        returns (ret: Ret, optarg: Option<string>, ghost p': nat)
      requires Between(orig, p, argv[..]) && nextchar != ""
      modifies this
      ensures Between(orig, p', argv[..]) && ret != Done
      ensures p' > p || (p' == p && 0 < |nextchar| < |old(nextchar)|)
      ensures MayRead(orig, p, old(nextchar)) && MayRead(orig, p', nextchar)
      ensures Unreported(spec, orig, p, old(nextchar)) == [Report(ret, optarg)] + Unreported(spec, orig, p', nextchar)
    {
      hide Scanned, BetweenCalls, Decode, Unreported, ElementSpan, Span;
      DecodeReports(spec, orig, p, argv[..], first, last, optind, nextchar);
      AfterDecode(spec, orig, p, argv[..], first, last, optind, nextchar);
      var next := if optind + 1 < argv.Length then Some(argv[optind + 1]) else None;
      var d := Decode(spec, argv[optind], nextchar, next);
      optind, nextchar := optind + d.advance, d.rest;
      ret, optarg, p' := d.ret, d.arg, p + d.advance;
    }

    /** One call in PERMUTE order.  `p` arguments of the original `orig` are scanned before it
        and p' after it. */
    method Next(argv: array<string>, ghost orig: seq<string>, ghost p: nat)
        returns (ret: Ret, optarg: Option<string>, ghost p': nat)
      requires Between(orig, p, argv[..])
      modifies this, argv
      ensures argv[0] == old(argv[0])
      ensures ret == Done ==> Partitioned(spec, orig, argv[..], optind)
      ensures ret != Done ==> Between(orig, p', argv[..])
      ensures ret != Done ==>
                p' > p || (p' == p && nextchar != "" && (old(nextchar) != "" ==> |nextchar| < |old(nextchar)|))
      ensures MayRead(orig, p, old(nextchar)) && (ret != Done ==> MayRead(orig, p', nextchar))
      ensures Unreported(spec, orig, p, old(nextchar))
           == if ret == Done then [] else [Report(ret, optarg)] + Unreported(spec, orig, p', nextchar)
    {
      hide Scanned, Reports, Partitioned, ElementReports, ElementSpan, Span;
      BetweenReads(spec, orig, p, argv[..], first, last, optind, nextchar);
      p' := p;
      if nextchar == "" {
        var done;
        done, p' := NextElement(argv, orig, p);
        if done { return Done, None, p'; }
      }
      ret, optarg, p' := DecodeNext(argv, orig, p');
    }
  }

  /** A whole run of calls.  It always ends, having reported exactly the options of the original
      arguments with their arguments, in order.  It leaves argv as a permutation of the original:
      the program name, then options, their arguments and any "--", then the operands, both
      groups in their original order, with the index returned at the first operand. */
  method Run(spec: Spec, argv: array<string>) returns (optind: nat, reports: seq<Report>)
    requires argv.Length >= 1 && Permutes(spec)
    modifies argv
    ensures argv[0] == old(argv[0])
    ensures argv[1..] == Options(spec, old(argv[1..])) + Operands(spec, old(argv[1..]))
    ensures multiset(argv[..]) == multiset(old(argv[..]))
    ensures optind == 1 + |Options(spec, old(argv[1..]))| && argv[optind..] == Operands(spec, old(argv[1..]))
    ensures reports == Reports(spec, old(argv[1..]))
  {
    hide Scanned, Partitioned, Reports, Unreported, Options, Operands;
    var g := new Parser(spec);
    ghost var orig := argv[1..];
    ghost var p := 0;
    reports := [];
    FirstCall(spec, orig, argv[..]);
    var ret, optarg;
    ret, optarg, p := g.Next(argv, orig, p);
    while ret != Done
      invariant argv[0] == old(argv[0])
      invariant ret == Done ==> Partitioned(spec, orig, argv[..], g.optind) && reports == Reports(spec, orig)
      invariant ret != Done ==> g.Between(orig, p, argv[..]) && MayRead(orig, p, g.nextchar)
      invariant ret != Done ==>
                  reports + [Report(ret, optarg)] + Unreported(spec, orig, p, g.nextchar) == Reports(spec, orig)
      invariant fresh(g) && g.spec == spec
      decreases ret != Done, |orig| - p, if g.nextchar == "" then 1 else 0, if g.nextchar == "" then 0 else |g.nextchar|
    {
      reports := reports + [Report(ret, optarg)];
      ret, optarg, p := g.Next(argv, orig, p);
    }
    optind := g.optind;
    PartitionPermutes(spec, orig, old(argv[..]), argv[..], optind);
  }

  lemma FirstCall(spec: Spec, orig: seq<string>, argv: seq<string>)
    requires |argv| >= 1 && orig == argv[1..]
    ensures Scanned(spec, orig, 0, argv, 1, 1, 1) && Unreported(spec, orig, 0, "") == Reports(spec, orig)
  {
    assert orig[..0] == [] && orig[0..] == orig && Mask(spec, orig)[0..] == Mask(spec, orig);
    assert argv[1..1] + argv[1..1] == [];
  }

  lemma PartitionPermutes(spec: Spec, orig: seq<string>, before: seq<string>, after: seq<string>, optind: nat)
    requires |before| >= 1 && orig == before[1..] && Partitioned(spec, orig, after, optind) && after[0] == before[0]
    ensures multiset(after) == multiset(before) && optind <= |after| && after[optind..] == Operands(spec, orig)
    ensures after[1..] == Options(spec, orig) + Operands(spec, orig) && optind == 1 + |Options(spec, orig)|
  {
    PickPartitions(orig, Mask(spec, orig));
    assert before == [before[0]] + orig && after == [after[0]] + after[1..];
    assert after[optind..] == after[1..][optind - 1..];
  }
}
