/** The order of interface names (lib/if.c): the comparison walks two names by turns through
    their non-digit parts and their numbers, and agrees with the order of their tokens. */
module InterfaceNames {
  import opened Sequences
  import LinkLists

  const LONG_MAX := 0x7fff_ffff_ffff_ffff

  /** A character that is not a digit, or a whole number as `strtol` reads it. */
  datatype Token = Character(code: nat) | Number(value: nat)

  predicate Digit(c: char) {
    '0' <= c <= '9'
  }

  /** How many characters precede the first digit: `strcspn (p, "0123456789")`. */
  function NameSpan(s: string): (k: nat)
    ensures k <= |s| && (forall i | 0 <= i < k :: !Digit(s[i])) && (k < |s| ==> Digit(s[k]))
  {
    if s == [] || Digit(s[0]) then 0 else 1 + NameSpan(s[1..])
  }

  function DigitSpan(s: string): (k: nat)
    ensures k <= |s| && (forall i | 0 <= i < k :: Digit(s[i])) && (k < |s| ==> !Digit(s[k]))
    ensures s != [] && Digit(s[0]) ==> k > 0
  {
    if s == [] || !Digit(s[0]) then 0 else 1 + DigitSpan(s[1..])
  }

  /** The number a run of digits stands for. */
  function Value(digits: string): nat
    requires forall i | 0 <= i < |digits| :: Digit(digits[i])
  {
    if digits == [] then 0
    else
      assert Digit(digits[|digits| - 1]);
      10 * Value(digits[..|digits| - 1]) + (digits[|digits| - 1] as int - '0' as int)
  }

  function Power10(n: nat): nat {
    if n == 0 then 1 else 10 * Power10(n - 1)
  }

  /** Decimal notation: a digit is worth itself, and digits in front count by powers of ten. */
  lemma {:induction false} ValueIsDecimal(a: string, b: string)
    requires forall i | 0 <= i < |a| :: Digit(a[i])
    requires forall i | 0 <= i < |b| :: Digit(b[i])
    ensures (forall i | 0 <= i < |a + b| :: Digit((a + b)[i])) && Value(a + b) == Value(a) * Power10(|b|) + Value(b)
    decreases |b|
  {
    if b == [] {
      assert a + b == a;
    } else {
      var n := |b| - 1;
      assert (a + b)[..|a + b| - 1] == a + b[..n] && (a + b)[|a + b| - 1] == b[n];
      ValueIsDecimal(a, b[..n]);
      assert Digit(b[n]);
      assert Value(a) * Power10(|b|) == 10 * (Value(a) * Power10(n));
    }
  }

  lemma DigitsAreWorthThemselves()
    ensures Value("0") == 0 && Value("1") == 1 && Value("2") == 2 && Value("3") == 3 && Value("4") == 4
    ensures Value("5") == 5 && Value("6") == 6 && Value("7") == 7 && Value("8") == 8 && Value("9") == 9
  {
    assert "0"[..0] == "" && "1"[..0] == "" && "2"[..0] == "" && "3"[..0] == "" && "4"[..0] == "";
    assert "5"[..0] == "" && "6"[..0] == "" && "7"[..0] == "" && "8"[..0] == "" && "9"[..0] == "";
  }

  /** `strtol` stops at the largest long. */
  function Strtol(s: string): nat {
    var v := Value(s[..DigitSpan(s)]);
    if v < LONG_MAX then v else LONG_MAX
  }

  function Tokens(s: string): seq<Token>
    decreases |s|
  {
    if s == [] then []
    else if Digit(s[0]) then [Number(Strtol(s))] + Tokens(s[DigitSpan(s)..])
    else [Character(s[0] as int)] + Tokens(s[1..])
  }

  // ----- The order of token sequences -----

  function Sign(x: int): int {
    if x < 0 then -1 else if x > 0 then 1 else 0
  }

  /** Characters below '0', then numbers by value, then characters above '9'. */
  function CompareToken(a: Token, b: Token): int {
    match (a, b)
    case (Character(c), Character(d)) => Sign(c - d)
    case (Number(v), Number(w)) => Sign(v - w)
    case (Character(c), Number(_)) => if c < '0' as int then -1 else 1
    case (Number(_), Character(d)) => if d < '0' as int then 1 else -1
  }

  /** Lexicographic order; a sequence precedes its extensions. */
  function Compare(x: seq<Token>, y: seq<Token>): (r: int)
    ensures -1 <= r <= 1
  {
    if x == [] && y == [] then 0
    else if x == [] then -1
    else if y == [] then 1
    else
      var first := CompareToken(x[0], y[0]);
      if first != 0 then first else Compare(x[1..], y[1..])
  }

  /** The tokens that names have: no character is a digit. */
  predicate Proper(x: seq<Token>) {
    forall i | 0 <= i < |x| && x[i].Character? :: !('0' as int <= x[i].code <= '9' as int)
  }

  lemma {:induction false} TokensAreProper(s: string)
    ensures Proper(Tokens(s))
    decreases |s|
  {
    if s == [] {
    } else if Digit(s[0]) {
      TokensAreProper(s[DigitSpan(s)..]);
    } else {
      TokensAreProper(s[1..]);
    }
  }

  lemma {:induction false} CompareAntisymmetric(x: seq<Token>, y: seq<Token>)
    ensures Compare(x, y) == -Compare(y, x)
    decreases |x|
  {
    if x != [] && y != [] { CompareAntisymmetric(x[1..], y[1..]); }
  }

  lemma {:induction false} CompareZero(x: seq<Token>, y: seq<Token>)
    ensures Compare(x, y) == 0 <==> x == y
    decreases |x|
  {
    if x != [] && y != [] {
      CompareZero(x[1..], y[1..]);
      assert x == [x[0]] + x[1..] && y == [y[0]] + y[1..];
    }
  }

  lemma CompareTokenTransitive(a: Token, b: Token, c: Token)
    requires Proper([a]) && Proper([b]) && Proper([c]) && CompareToken(a, b) <= 0 && CompareToken(b, c) <= 0
    ensures CompareToken(a, c) <= 0
    ensures CompareToken(a, c) == 0 ==> CompareToken(a, b) == 0 && CompareToken(b, c) == 0
  {
    assert [a][0] == a && [b][0] == b && [c][0] == c;
  }

  lemma {:induction false} CompareTransitive(x: seq<Token>, y: seq<Token>, z: seq<Token>)
    requires Proper(x) && Proper(y) && Proper(z) && Compare(x, y) <= 0 && Compare(y, z) <= 0
    ensures Compare(x, z) <= 0
    ensures Compare(x, z) == 0 ==> Compare(x, y) == 0 && Compare(y, z) == 0
    decreases |x|
  {
    if x != [] && y != [] && z != [] {
      CompareTokenTransitive(x[0], y[0], z[0]);
      if CompareToken(x[0], y[0]) == 0 && CompareToken(y[0], z[0]) == 0 {
        CompareTransitive(x[1..], y[1..], z[1..]);
      }
    }
  }

  // ----- C string comparison -----

  /** The sign of `strcmp`. */
  function Strcmp(s: string, t: string): int {
    if s == [] && t == [] then 0
    else if s == [] then -1
    else if t == [] then 1
    else if s[0] != t[0] then Sign(s[0] as int - t[0] as int)
    else Strcmp(s[1..], t[1..])
  }

  /** The sign of `strncmp`, on names at least n long. */
  function Strncmp(s: string, t: string, n: nat): int
    requires n <= |s| && n <= |t|
  {
    if n == 0 then 0
    else if s[0] != t[0] then Sign(s[0] as int - t[0] as int)
    else Strncmp(s[1..], t[1..], n - 1)
  }

  /** Name parts of different lengths differ before either name's number counts. */
  lemma {:induction false} StrcmpDecides(s: string, t: string)
    requires NameSpan(s) != NameSpan(t)
    ensures Strcmp(s, t) == Compare(Tokens(s), Tokens(t)) != 0
    decreases |s|
  {
    hide Strtol, DigitSpan;
    if s != [] && t != [] && !Digit(s[0]) && !Digit(t[0]) && s[0] == t[0] {
      StrcmpDecides(s[1..], t[1..]);
    }
  }

  /** The first characters of two name parts: a difference decides, otherwise the tails do. */
  lemma FirstCharacters(s: string, t: string)
    requires s != [] && t != [] && !Digit(s[0]) && !Digit(t[0])
    ensures Compare(Tokens(s), Tokens(t))
            == if s[0] != t[0] then Sign(s[0] as int - t[0] as int) else Compare(Tokens(s[1..]), Tokens(t[1..]))
  {
    hide Strtol, DigitSpan;
    var x, y := Tokens(s), Tokens(t);
    assert x[0] == Character(s[0] as int) && x[1..] == Tokens(s[1..]);
    assert y[0] == Character(t[0] as int) && y[1..] == Tokens(t[1..]);
  }

  /** Name parts of one length: a difference decides, otherwise the rests do. */
  lemma {:induction false} StrncmpDecides(s: string, t: string, n: nat)
    requires n == NameSpan(s) == NameSpan(t)
    ensures Strncmp(s, t, n) != 0 ==> Strncmp(s, t, n) == Compare(Tokens(s), Tokens(t))
    ensures Strncmp(s, t, n) == 0 ==> Compare(Tokens(s), Tokens(t)) == Compare(Tokens(s[n..]), Tokens(t[n..]))
    decreases n
  {
    hide Tokens, Compare;
    if n == 0 {
      assert s[n..] == s && t[n..] == t;
    } else {
      FirstCharacters(s, t);
      if s[0] == t[0] {
        StrncmpDecides(s[1..], t[1..], n - 1);
        assert s[1..][n - 1..] == s[n..] && t[1..][n - 1..] == t[n..];
      }
    }
  }

  lemma NumbersDecide(s: string, t: string)
    requires s != [] && t != [] && Digit(s[0]) && Digit(t[0])
    ensures Strtol(s) != Strtol(t) ==> Compare(Tokens(s), Tokens(t)) == Sign(Strtol(s) - Strtol(t))
    ensures Strtol(s) == Strtol(t) ==>
              Compare(Tokens(s), Tokens(t)) == Compare(Tokens(s[DigitSpan(s)..]), Tokens(t[DigitSpan(t)..]))
  {
    hide Strtol, DigitSpan;
  }

  // ----- The comparison -----

  predicate EndsInName(s: string) {
    s != [] && !Digit(s[|s| - 1])
  }

  /** What the comparison returns: the order of the tokens where they differ. */
  function IfCmp(s: string, t: string): int {
    var order := Compare(Tokens(s), Tokens(t));
    if order != 0 then order else if EndsInName(s) then -1 else 0
  }

  /** Numbers that are equal leave the comparison to what follows them. */
  lemma NumbersPassed(p1: string, p2: string, q1: string, q2: string)
    requires NameSpan(p1) <= |p1| && q1 == p1[NameSpan(p1)..] && q1 != [] && q2 != [] && Digit(q1[0]) && Digit(q2[0])
    requires Compare(Tokens(p1), Tokens(p2)) == Compare(Tokens(q1), Tokens(q2)) && Strtol(q1) == Strtol(q2)
    ensures IfCmp(p1, p2) == IfCmp(q1[DigitSpan(q1)..], q2[DigitSpan(q2)..])
  {
    hide Tokens, Compare, Strtol, EndsInName, NameSpan, DigitSpan;
    NumbersDecide(q1, q2);
    SuffixEnds(p1, NameSpan(p1));
    SuffixEnds(q1, DigitSpan(q1));
  }

  /** A name ends like its suffix, if the characters in front of an empty one end in a digit. */
  lemma SuffixEnds(s: string, k: nat)
    requires k <= |s| && (k == |s| ==> s != [] && Digit(s[|s| - 1]))
    ensures EndsInName(s[k..]) == EndsInName(s)
  {
    assert k < |s| ==> s[k..][|s[k..]| - 1] == s[|s| - 1];
  }

  /** One turn of the comparison's loop, from two non-empty rests. */
  method CompareTurn(p1: string, p2: string) returns (done: bool, r: int, q1: string, q2: string)
    requires p1 != [] && p2 != []
    ensures done ==> r == IfCmp(p1, p2)
    ensures !done ==> IfCmp(p1, p2) == IfCmp(q1, q2) && |q1| < |p1|
  {
    hide Tokens, Compare, Strtol, Strcmp, Strncmp;
    q1, q2, done := p1, p2, true;
    var l1, l2 := NameSpan(p1), NameSpan(p2);
    if l1 != l2 {
      StrcmpDecides(p1, p2);
      r := Strcmp(p1, p2);
      return;
    }
    StrncmpDecides(p1, p2, l1);
    r := Strncmp(p1, p2, l1);
    if r != 0 {
      return;
    }
    q1, q2 := p1[l1..], p2[l1..];
    if q1 == [] {
      NameEnds(p1, q2);
      r := -1;
      return;
    }
    if q2 == [] {
      NumberFollows(q1);
      r := 1;
      return;
    }
    NumbersDecide(q1, q2);
    var x1, x2 := Strtol(q1), Strtol(q2);
    if x1 != x2 {
      r := if x1 < x2 then -1 else 1;
      return;
    }
    NumbersPassed(p1, p2, q1, q2);
    done, q1, q2 := false, q1[DigitSpan(q1)..], q2[DigitSpan(q2)..];
  }

  /** The first name ends with its non-digit part. */
  lemma NameEnds(p1: string, q2: string)
    requires p1 != [] && NameSpan(p1) == |p1|
    ensures EndsInName(p1) && Compare(Tokens([]), Tokens(q2)) == if q2 == [] then 0 else -1
  {
    hide Strtol;
  }

  lemma NumberFollows(q: string)
    requires q != []
    ensures Compare(Tokens(q), Tokens([])) == 1
  {
    hide Strtol;
  }

  lemma RestsDecide(p1: string, p2: string)
    requires p1 == [] || p2 == []
    ensures IfCmp(p1, p2) == if p1 != [] then 1 else if p2 != [] then -1 else 0
  {
    hide Strtol;
  }

  method CmpFunc(s: string, t: string) returns (r: int)
    ensures r == IfCmp(s, t)
  {
    hide IfCmp;
    var p1, p2 := s, t;
    while p1 != [] && p2 != []
      invariant IfCmp(s, t) == IfCmp(p1, p2)
      decreases |p1|
    {
      var done, order, q1, q2 := CompareTurn(p1, p2);
      if done {
        return order;
      }
      p1, p2 := q1, q2;
    }
    RestsDecide(p1, p2);
    r := if p1 != [] then 1 else if p2 != [] then -1 else 0;
  }

  // ----- What kind of order it is -----

  lemma LastToken(s: string)
    requires s != []
    ensures Tokens(s) != [] && (Tokens(s)[|Tokens(s)| - 1].Character? <==> EndsInName(s))
    decreases |s|
  {
    hide Strtol;
    var rest := if Digit(s[0]) then s[DigitSpan(s)..] else s[1..];
    if rest != [] {
      LastToken(rest);
      assert rest[|rest| - 1] == s[|s| - 1];
    } else {
      assert Tokens(rest) == [];
    }
  }

  /** Names with the same tokens end alike. */
  lemma SameTokensEndAlike(s: string, t: string)
    requires Tokens(s) == Tokens(t)
    ensures EndsInName(s) == EndsInName(t)
  {
    hide Tokens;
    NoTokens(s);
    NoTokens(t);
    if s != [] && t != [] {
      LastToken(s);
      LastToken(t);
    }
  }

  lemma NoTokens(s: string)
    ensures Tokens(s) == [] <==> s == []
  {
  }

  /** Where the tokens differ the comparison is their strict order; where they agree it says
      "less" both ways if the names end in a non-digit, and "equal" if they end in a number. */
  lemma CmpMeans(s: string, t: string)
    ensures Tokens(s) != Tokens(t) ==>
              IfCmp(s, t) == Compare(Tokens(s), Tokens(t)) && IfCmp(s, t) == -IfCmp(t, s) && IfCmp(s, t) != 0
    ensures IfCmp(s, t) < 0 && IfCmp(t, s) < 0 <==> Tokens(s) == Tokens(t) && EndsInName(s)
    ensures IfCmp(s, t) == 0 <==> Tokens(s) == Tokens(t) && !EndsInName(s)
  {
    hide Tokens, Compare, EndsInName;
    CompareZero(Tokens(s), Tokens(t));
    CompareAntisymmetric(Tokens(s), Tokens(t));
    if Tokens(s) == Tokens(t) { SameTokensEndAlike(s, t); }
  }

  /** Two names that each precede the other. */
  lemma LessBothWays()
    ensures IfCmp("a1b", "a01b") < 0 && IfCmp("a01b", "a1b") < 0
  {
    hide IfCmp;
    var s, t := "a1b", "a01b";
    assert Tokens("b") == [Character('b' as int)] by { assert Tokens("b"[1..]) == []; }
    TokensOfNumber("1b", 1);
    TokensOfNumber("01b", 2);
    assert Value("1") == 1 by { assert "1"[..0] == ""; }
    assert Value("01") == 1 by { assert "01"[..1] == "0" && "0"[..0] == ""; }
    assert s[1..] == "1b" && t[1..] == "01b";
    CmpMeans(s, t);
  }

  lemma TokensOfNumber(s: string, k: nat)
    requires 0 < k <= |s| && (forall i | 0 <= i < k :: Digit(s[i])) && (k < |s| ==> !Digit(s[k]))
    ensures Tokens(s) == [Number(if Value(s[..k]) < LONG_MAX then Value(s[..k]) else LONG_MAX)] + Tokens(s[k..])
  {
    assert DigitSpan(s) == k;
  }

  /** "Less" is transitive without exception. */
  lemma CmpTransitive(s: string, t: string, u: string)
    requires IfCmp(s, t) < 0 && IfCmp(t, u) < 0
    ensures IfCmp(s, u) < 0
  {
    hide Tokens, Compare, EndsInName, Proper;
    TokensAreProper(s);
    TokensAreProper(t);
    TokensAreProper(u);
    CompareTransitive(Tokens(s), Tokens(t), Tokens(u));
  }

  // ----- The list of interfaces -----

  /** At most, in the order of tokens. */
  predicate AtMost(s: string, t: string) {
    Compare(Tokens(s), Tokens(t)) <= 0
  }

  ghost function ByName(): LinkLists.Comparison<string> {
    LinkLists.By(IfCmp)
  }

  /** The comparison decides the order of tokens, so sorted insertion keeps it. */
  lemma CmpDecides()
    ensures LinkLists.Decides(ByName(), AtMost)
  {
    hide Tokens, Compare, EndsInName, Proper;
    forall s, t ensures if IfCmp(s, t) < 0 then AtMost(s, t) else AtMost(t, s) {
      CompareAntisymmetric(Tokens(s), Tokens(t));
    }
    forall s, t, u | AtMost(s, t) && AtMost(t, u) ensures AtMost(s, u) {
      TokensAreProper(s);
      TokensAreProper(t);
      TokensAreProper(u);
      CompareTransitive(Tokens(s), Tokens(t), Tokens(u));
    }
  }

  /** What every interface list keeps: sorted by tokens, linked, counted, each name once. */
  ghost predicate ValidInterfaces(iflist: LinkLists.List<string>)
    reads iflist, iflist.spine`next, iflist.spine`prev
  {
    && iflist.Valid() && iflist.order == ByName()
    && LinkLists.Sorted(AtMost, LinkLists.Values(iflist.spine)) && NoRepeats(LinkLists.Values(iflist.spine))
  }

  lemma InsertedOnce(names: seq<string>, k: nat, name: string)
    requires NoRepeats(names) && name !in names && k <= |names|
    ensures NoRepeats(WithIndex(names, k, name))
    ensures forall n :: n in WithIndex(names, k, name) <==> n in names || n == name
  {
    var r := WithIndex(names, k, name);
    assert r[k] == name;
    forall n | n in names ensures n in r {
      var i :| 0 <= i < |names| && names[i] == n;
      assert r[if i < k then i else i + 1] == n;
    }
  }

  method Create(iflist: LinkLists.List<string>, name: string)
    requires ValidInterfaces(iflist) && |name| <= 20
    modifies iflist, iflist.spine`next, iflist.spine`prev
    ensures ValidInterfaces(iflist)
    ensures var was := old(LinkLists.Values(iflist.spine));
            && (name in was ==> LinkLists.Values(iflist.spine) == was)
            && forall n :: n in LinkLists.Values(iflist.spine) <==> n in was || n == name
    ensures forall i | 0 <= i < |iflist.spine| :: iflist.spine[i] in old(iflist.spine) || fresh(iflist.spine[i])
  {
    hide LinkLists.Linked, LinkLists.Sorted, LinkLists.Decides, LinkLists.Place, WithIndex, NoRepeats;
    ghost var names := LinkLists.Values(iflist.spine);
    var node, k := iflist.Lookup(name);
    if node == null {
      assert name !in names;
      CmpDecides();
      LinkLists.InsertKeepsSorted(ByName(), AtMost, names, name);
      InsertedOnce(names, LinkLists.Place(ByName(), names, name), name);
      iflist.AddSort(name);
    } else {
      assert names[k] == name;
    }
  }

  /** Whatever interfaces are created in whatever order, the list holds each name once, sorted. */
  method CreateAll(names: seq<string>) returns (iflist: LinkLists.List<string>)
    requires forall i | 0 <= i < |names| :: |names[i]| <= 20
    ensures ValidInterfaces(iflist) && forall n :: n in LinkLists.Values(iflist.spine) <==> n in names
  {
    hide LinkLists.List.Valid, LinkLists.Sorted, NoRepeats;
    iflist := NewInterfaces();
    var k := 0;
    while k < |names|
      invariant 0 <= k <= |names| && ValidInterfaces(iflist) && fresh(iflist)
      invariant forall i | 0 <= i < |iflist.spine| :: fresh(iflist.spine[i])
      invariant forall n :: n in LinkLists.Values(iflist.spine) <==> n in names[..k]
    {
      Create(iflist, names[k]);
      assert names[..k + 1] == names[..k] + [names[k]];
      k := k + 1;
    }
    assert names[..k] == names;
  }

  method NewInterfaces() returns (iflist: LinkLists.List<string>)
    ensures fresh(iflist) && ValidInterfaces(iflist) && iflist.spine == []
  {
    iflist := new LinkLists.List(LinkLists.By(IfCmp));
  }
}
