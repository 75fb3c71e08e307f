/** IPv4 addresses as text: the parser and the printer of the network stack. */
module DottedQuad {
  import opened Bytes
  import opened CStrings

  const ZERO: byte := 48
  const NINE: byte := 57

  // ---------------------------------------------------------------- specification

  predicate Digits(s: seq<byte>) {
    forall c | c in s :: ZERO <= c <= NINE
  }

  function Digit(c: byte): nat {
    if ZERO <= c <= NINE then c - ZERO else 0
  }

  /** The value of a group of decimal digits; an empty group counts zero. */
  function Value(s: seq<byte>): (v: nat) {
    if s == [] then 0 else 10 * Value(s[..|s| - 1]) + Digit(s[|s| - 1])
  }

  predicate Group(s: seq<byte>) {
    Digits(s) && Value(s) <= 255
  }

  predicate Groups(ls: seq<seq<byte>>) {
    forall l | l in ls :: Group(l)
  }

  /** The grammar: exactly three dots, and every group, even an empty one, at most 255. */
  predicate Quad(text: seq<byte>) {
    |Labels(text)| == 4 && Groups(Labels(text))
  }

  function Octets(text: seq<byte>): (r: seq<byte>)
    requires Quad(text)
    ensures |r| == 4
  {
    var ls := Labels(text);
    assert ls[0] in ls && ls[1] in ls && ls[2] in ls && ls[3] in ls;
    [Value(ls[0]), Value(ls[1]), Value(ls[2]), Value(ls[3])]
  }

  /** The shortest decimal text of a number. */
  function Decimal(n: nat): (s: seq<byte>)
    ensures s != []
  {
    if n < 10 then [ZERO + n] else Decimal(n / 10) + [ZERO + n % 10]
  }

  function Printed(ip: seq<byte>): seq<byte>
    requires |ip| == 4
  {
    Dotted([Decimal(ip[0]), Decimal(ip[1]), Decimal(ip[2]), Decimal(ip[3])])
  }

  /** A group that the printer would write: not empty, no leading zero. */
  predicate Shortest(s: seq<byte>) {
    s != [] && (|s| == 1 || s[0] != ZERO)
  }

  // ---------------------------------------------------------------- properties

  lemma DigitsSplit(s: seq<byte>)
    requires s != []
    ensures var n := |s| - 1; Digits(s) <==> Digits(s[..n]) && ZERO <= s[n] <= NINE
  {
    var n := |s| - 1;
    assert s == s[..n] + [s[n]];
    forall c | c in s[..n] ensures c in s {
      var k :| 0 <= k < n && s[..n][k] == c;
      assert s[k] == c;
    }
    assert s[n] in s;
  }

  lemma {:induction false} DecimalDigits(n: nat)
    ensures Digits(Decimal(n)) && Value(Decimal(n)) == n && Shortest(Decimal(n))
    ensures n > 0 ==> Decimal(n)[0] != ZERO
  {
    var s := Decimal(n);
    if n >= 10 {
      DecimalDigits(n / 10);
      assert s[..|s| - 1] == Decimal(n / 10);
    } else {
      assert s[..0] == [];
    }
  }

  lemma {:induction false} ValuePositive(s: seq<byte>)
    requires Digits(s) && s != [] && s[0] != ZERO
    ensures Value(s) > 0
  {
    DigitsSplit(s);
    if |s| > 1 {
      ValuePositive(s[..|s| - 1]);
    } else {
      assert s[0] in s && s[..0] == [];
    }
  }

  /** Printing a value gives its digits back exactly when they are the shortest ones. */
  lemma {:induction false} DecimalValue(s: seq<byte>)
    requires Digits(s)
    ensures Decimal(Value(s)) == s <==> Shortest(s)
    decreases |s|
  {
    DecimalDigits(Value(s));
    if Shortest(s) {
      var n := |s| - 1;
      DigitsSplit(s);
      if n > 0 {
        DecimalValue(s[..n]);
        ValuePositive(s[..n]);
        var v, d := Value(s[..n]), s[n] - ZERO;
        assert (10 * v + d) / 10 == v && (10 * v + d) % 10 == d;
        assert Decimal(10 * v + d) == Decimal(v) + [ZERO + d];
        assert s == s[..n] + [s[n]];
      } else {
        assert s[..0] == [];
      }
    }
  }

  function Zeros(n: nat): (s: seq<byte>)
    ensures |s| == n
  {
    seq(n, _ => 48)
  }

  lemma {:induction false} ValueOfZeros(z: nat, s: seq<byte>)
    ensures Digits(Zeros(z) + s) <==> Digits(s)
    ensures Value(Zeros(z) + s) == Value(s)
    decreases |s|, z
  {
    var t := Zeros(z) + s;
    assert forall c | c in t :: c == 48 || c in s;
    assert forall c | c in s :: c in t;
    if s != [] {
      ValueOfZeros(z, s[..|s| - 1]);
      assert t[..|t| - 1] == Zeros(z) + s[..|s| - 1];
    } else if z > 0 {
      ValueOfZeros(z - 1, []);
      assert t[..z - 1] == Zeros(z - 1) + [];
    }
  }

  lemma {:induction false} LeadingZeros(s: seq<byte>)
    requires Digits(s) && s != []
    ensures exists z: nat :: s == Zeros(z) + Decimal(Value(s))
    decreases |s|
  {
    if Shortest(s) {
      DecimalValue(s);
      assert s == Zeros(0) + Decimal(Value(s));
    } else {
      var rest := s[1..];
      assert s == Zeros(1) + rest;
      assert forall c | c in rest :: c in s;
      ValueOfZeros(1, rest);
      LeadingZeros(rest);
      var z: nat :| rest == Zeros(z) + Decimal(Value(rest));
      assert s == Zeros(z + 1) + Decimal(Value(s));
    }
  }

  /** The groups that are accepted: nothing, which counts zero, or a number up to 255 with any zeros in front. */
  lemma GroupIff(s: seq<byte>)
    ensures Group(s) <==> s == [] || exists z: nat, n: nat | n <= 255 :: s == Zeros(z) + Decimal(n)
    ensures forall z: nat, n: nat | s == Zeros(z) + Decimal(n) :: Value(s) == n
    ensures s == [] ==> Value(s) == 0
  {
    forall z: nat, n: nat | s == Zeros(z) + Decimal(n) ensures Digits(s) && Value(s) == n {
      ValueOfZeros(z, Decimal(n));
      DecimalDigits(n);
    }
    if Group(s) && s != [] {
      LeadingZeros(s);
      var z: nat :| s == Zeros(z) + Decimal(Value(s));
      assert Value(s) <= 255;
    }
  }

  /** A text has one group more than it has dots. */
  lemma {:induction false} GroupsAndDots(text: seq<byte>)
    ensures |Labels(text)| == 1 + multiset(text)[46]
  {
    if text != [] {
      GroupsAndDots(text[1..]);
      assert text == [text[0]] + text[1..];
    }
  }

  /** Text without dots is one label. */
  lemma {:induction false} OneLabel(s: seq<byte>)
    requires DOT !in s
    ensures Labels(s) == [s]
  {
    if s != [] {
      OneLabel(s[1..]);
      assert s == [s[0]] + s[1..];
    }
  }

  lemma {:induction false} LabelsOfDotted(ls: seq<seq<byte>>)
    requires ls != [] && forall l | l in ls :: DOT !in l
    ensures Labels(Dotted(ls)) == ls
    decreases |ls|
  {
    assert ls[0] in ls;
    OneLabel(ls[0]);
    if |ls| > 1 {
      LabelsOfDotted(ls[1..]);
      LabelsConcat(ls[0], [DOT] + Dotted(ls[1..]));
      assert ls[0] + ([DOT] + Dotted(ls[1..])) == Dotted(ls);
      assert ([DOT] + Dotted(ls[1..]))[1..] == Dotted(ls[1..]);
      assert ls[0] + [] == ls[0];
    }
  }

  /** The pieces of `q` behind those of `p`, with no dot in between. */
  function Glued(p: seq<seq<byte>>, q: seq<seq<byte>>): seq<seq<byte>>
    requires p != [] && q != []
  {
    p[..|p| - 1] + [p[|p| - 1] + q[0]] + q[1..]
  }

  lemma GluedLonger(c: byte, p: seq<seq<byte>>, q: seq<seq<byte>>)
    requires p != [] && q != []
    ensures var g := Glued(p, q); Glued([[c] + p[0]] + p[1..], q) == [[c] + g[0]] + g[1..]
  {
    var m, g, l := |p| - 1, Glued(p, q), [[c] + p[0]] + p[1..];
    if m == 0 {
      assert [c] + (p[0] + q[0]) == [c] + p[0] + q[0];
      assert g[1..] == q[1..] && l == [[c] + p[0]];
    } else {
      assert l[..m] == [[c] + p[0]] + p[1..m];
      assert g[1..] == p[1..m] + [p[m] + q[0]] + q[1..];
    }
  }

  lemma GluedFirst(q: seq<seq<byte>>)
    requires q != []
    ensures Glued([[]], q) == q
  {
    assert [] + q[0] == q[0] && q == [q[0]] + q[1..];
  }

  lemma GluedNext(p: seq<seq<byte>>, q: seq<seq<byte>>)
    requires p != [] && q != []
    ensures Glued([[]] + p, q) == [[]] + Glued(p, q)
  {
    assert ([[]] + p)[..|p|] == [[]] + p[..|p| - 1];
  }

  lemma {:induction false} LabelsConcat(a: seq<byte>, b: seq<byte>)
    ensures Labels(a + b) == Glued(Labels(a), Labels(b))
  {
    var q := Labels(b);
    hide Glued;
    if a == [] {
      assert a + b == b;
      GluedFirst(q);
    } else {
      LabelsConcat(a[1..], b);
      assert (a + b)[1..] == a[1..] + b;
      GluedNext(Labels(a[1..]), q);
      GluedLonger(a[0], Labels(a[1..]), q);
    }
  }

  lemma DecimalsGroups(ip: seq<byte>)
    requires |ip| == 4
    ensures var ls := [Decimal(ip[0]), Decimal(ip[1]), Decimal(ip[2]), Decimal(ip[3])];
            Groups(ls) && Labels(Printed(ip)) == ls && forall l | l in ls :: Shortest(l)
  {
    var ls := [Decimal(ip[0]), Decimal(ip[1]), Decimal(ip[2]), Decimal(ip[3])];
    DecimalDigits(ip[0]);
    DecimalDigits(ip[1]);
    DecimalDigits(ip[2]);
    DecimalDigits(ip[3]);
    forall l | l in ls ensures DOT !in l {
      assert Digits(l);
    }
    LabelsOfDotted(ls);
  }

  /** Parsing a printed address gives the address. */
  lemma ParsePrinted(ip: seq<byte>)
    requires |ip| == 4
    ensures Quad(Printed(ip)) && Octets(Printed(ip)) == ip
  {
    DecimalsGroups(ip);
    DecimalDigits(ip[0]);
    DecimalDigits(ip[1]);
    DecimalDigits(ip[2]);
    DecimalDigits(ip[3]);
  }

  /** Printing a parsed text gives the text back exactly when no group is empty or has a leading zero. */
  lemma PrintParsed(text: seq<byte>)
    requires Quad(text)
    ensures Printed(Octets(text)) == text <==> forall l | l in Labels(text) :: Shortest(l)
  {
    var ls, ip := Labels(text), Octets(text);
    var ds := [Decimal(ip[0]), Decimal(ip[1]), Decimal(ip[2]), Decimal(ip[3])];
    DecimalsGroups(ip);
    DottedLabels(text);
    forall k | 0 <= k < 4 ensures ds[k] == ls[k] <==> Shortest(ls[k]) {
      assert ls[k] in ls;
      DecimalValue(ls[k]);
    }
    hide Decimal, Labels, Dotted, Shortest, Value;
    if forall l | l in ls :: Shortest(l) {
      forall k | 0 <= k < 4 ensures ds[k] == ls[k] {
        assert ls[k] in ls;
      }
      assert ls == ds;
    } else {
      var l :| l in ls && !Shortest(l);
      var k :| 0 <= k < 4 && ls[k] == l;
      assert ds != ls;
    }
  }

  lemma DecimalLength(n: byte)
    ensures 1 <= |Decimal(n)| <= 3 && 0 !in Decimal(n)
  {
    DecimalDigits(n);
    assert n >= 10 ==> Decimal(n) == Decimal(n / 10) + [ZERO + n % 10];
    assert n >= 100 ==> Decimal(n / 10) == Decimal(n / 100) + [ZERO + n / 10 % 10];
    assert n / 100 < 10;
  }

  lemma FourDotted(a: seq<byte>, b: seq<byte>, c: seq<byte>, d: seq<byte>)
    ensures Dotted([a, b, c, d]) == a + [DOT] + (b + [DOT] + (c + [DOT] + d))
  {
    assert [a, b, c, d][1..] == [b, c, d];
    assert [b, c, d][1..] == [c, d];
    assert [c, d][1..] == [d];
    assert Dotted([d]) == d;
    assert Dotted([c, d]) == c + [DOT] + d;
    assert Dotted([b, c, d]) == b + [DOT] + (c + [DOT] + d);
  }

  /** Every address fits the sixteen bytes that callers reserve. */
  lemma PrintedFits(ip: seq<byte>)
    requires |ip| == 4
    ensures 7 <= |Printed(ip)| <= 15 && 0 !in Printed(ip)
  {
    DecimalLength(ip[0]);
    DecimalLength(ip[1]);
    DecimalLength(ip[2]);
    DecimalLength(ip[3]);
    hide Decimal, Dotted;
    FourDotted(Decimal(ip[0]), Decimal(ip[1]), Decimal(ip[2]), Decimal(ip[3]));
  }

  // ---------------------------------------------------------------- the parser

  lemma OneByte(c: byte)
    ensures Labels([c]) == if c == DOT then [[], []] else [[c]]
  {
    var none: seq<byte> := [];
    assert [c][1..] == none && Labels(none) == [none];
    assert [none][1..] == [];
    if c != DOT {
      assert [c] + none == [c];
      assert [[c] + none] + [none][1..] == [[c]];
    } else {
      assert [none] + [none] == [none, none];
    }
  }

  lemma GluedEmpty(p: seq<seq<byte>>)
    requires p != []
    ensures Glued(p, [[], []]) == p + [[]]
  {
    var n, none: seq<byte> := |p| - 1, [];
    assert p[n] + none == p[n];
    assert [none, none][1..] == [none];
    assert p == p[..n] + [p[n]];
  }

  /** One more byte lengthens the last label or, at a dot, starts a new one. */
  lemma LabelsAppend(s: seq<byte>, c: byte)
    ensures var ls := Labels(s);
            Labels(s + [c]) == if c == DOT then ls + [[]] else ls[..|ls| - 1] + [ls[|ls| - 1] + [c]]
  {
    var ls, n := Labels(s), |Labels(s)| - 1;
    LabelsConcat(s, [c]);
    OneByte(c);
    hide Labels;
    if c == DOT {
      GluedEmpty(ls);
    } else {
      assert [[c]][1..] == [];
    }
  }

  /** A label that is too much already spoils every longer text. */
  lemma BadLabelStays(s: seq<byte>, rest: seq<byte>)
    requires !Group(Labels(s)[|Labels(s)| - 1])
    ensures !Quad(s + rest)
  {
    var p, q := Labels(s), Labels(rest);
    var n := |p| - 1;
    LabelsConcat(s, rest);
    BadGroupStays(p[n], q[0]);
    assert Labels(s + rest)[n] == p[n] + q[0];
  }

  lemma {:induction false} BadGroupStays(s: seq<byte>, rest: seq<byte>)
    requires !Group(s)
    ensures !Group(s + rest)
    decreases |rest|
  {
    if rest == [] {
      assert s + rest == s;
    } else {
      var t := s + rest[..|rest| - 1];
      BadGroupStays(s, rest[..|rest| - 1]);
      assert s + rest == t + [rest[|rest| - 1]];
      BadGroupStep(t, rest[|rest| - 1]);
    }
  }

  lemma BadGroupStep(t: seq<byte>, c: byte)
    requires !Group(t)
    ensures !Group(t + [c])
  {
    var u := t + [c];
    assert u[..|u| - 1] == t;
    if !Digits(t) {
      var d :| d in t && !(ZERO <= d <= NINE);
      assert d in u;
    }
  }

  /** The labels read so far are the octets stored and the one being summed up. */
  ghost predicate Parsed(s: seq<byte>, octets: seq<byte>, index: nat, current: byte) {
    var ls := Labels(s);
    && |octets| == 4 && |ls| == index + 1
    && Groups(ls)
    && (forall k | 0 <= k < index && k < 4 :: octets[k] == Value(ls[k]))
    && current == Value(ls[index])
  }

  lemma ParsedStart(octets: seq<byte>)
    requires |octets| == 4
    ensures Parsed([], octets, 0, 0)
  {
    assert Labels([]) == [[]];
    assert Group([]);
  }

  lemma ParsedEnd(s: seq<byte>, octets: seq<byte>, index: nat, current: byte)
    requires Parsed(s, octets, index, current)
    ensures Quad(s) <==> index == 3
    ensures index == 3 ==> octets[3 := current] == Octets(s)
  {
  }

  lemma ParsedDigit(s: seq<byte>, octets: seq<byte>, index: nat, current: byte, c: byte)
    requires Parsed(s, octets, index, current) && ZERO <= c <= NINE
    ensures var v := current * 10 + (c - ZERO);
            if v > 255 then !Group(Labels(s + [c])[|Labels(s + [c])| - 1]) else Parsed(s + [c], octets, index, v)
  {
    var ls, ms := Labels(s), Labels(s + [c]);
    LabelsAppend(s, c);
    var l := ls[index] + [c];
    assert l[..|l| - 1] == ls[index] && ls[index] in ls;
    assert Value(l) == 10 * current + (c - ZERO);
    if Value(l) <= 255 {
      forall m | m in ms ensures Group(m) {
        assert m == l || m in ls;
      }
    }
  }

  lemma ParsedDot(s: seq<byte>, octets: seq<byte>, index: nat, current: byte)
    requires Parsed(s, octets, index, current) && index < 4
    ensures Parsed(s + [DOT], octets[index := current], index + 1, 0)
  {
    LabelsAppend(s, DOT);
    assert Group([]);
  }

  lemma BadByte(s: seq<byte>, c: byte)
    requires c != DOT && !(ZERO <= c <= NINE)
    ensures !Group(Labels(s + [c])[|Labels(s + [c])| - 1])
  {
    LabelsAppend(s, c);
    var ls := Labels(s + [c]);
    assert c in ls[|ls| - 1];
  }

  /** Further text never takes labels away. */
  lemma TooManyLabels(s: seq<byte>, rest: seq<byte>)
    requires |Labels(s)| > 4
    ensures !Quad(s + rest)
  {
    LabelsConcat(s, rest);
  }

  /** Accepts exactly the grammar, and writes the address only when it does. */
  method IpFromString(str: cstring, ip: array<byte>) returns (result: int)
    requires ip.Length == 4
    modifies ip
    ensures result == if Quad(str) then 0 else -1
    ensures ip[..] == if Quad(str) then Octets(str) else old(ip[..])
  {
    var octets: seq<byte> := [0, 0, 0, 0];  // not initialised in the kernel, and not read before it is written
    var octetIndex, currentOctet: byte := 0, 0;
    var i := 0;
    hide Labels, Group, Quad, Digits;
    ParsedStart(octets);
    assert str[..0] == [];
    while At(str, i) != 0 && octetIndex < 4
      invariant i <= |str| && octetIndex <= 4
      invariant Parsed(str[..i], octets, octetIndex, currentOctet)
      invariant ip[..] == old(ip[..])
      decreases |str| - i
    {
      var c := At(str, i);
      assert str[..i + 1] == str[..i] + [c] && str == str[..i + 1] + str[i + 1..];
      if ZERO <= c <= NINE {
        ParsedDigit(str[..i], octets, octetIndex, currentOctet, c);
        var next := currentOctet * 10 + (c - ZERO);
        if next > 255 {
          BadLabelStays(str[..i + 1], str[i + 1..]);
          return -1;
        }
        currentOctet := next;
      } else if c == DOT {
        ParsedDot(str[..i], octets, octetIndex, currentOctet);
        octets := octets[octetIndex := currentOctet];
        octetIndex := octetIndex + 1;
        currentOctet := 0;
      } else {
        BadByte(str[..i], c);
        BadLabelStays(str[..i + 1], str[i + 1..]);
        return -1;
      }
      i := i + 1;
    }
    if octetIndex == 4 {
      assert str == str[..i] + str[i..];
      TooManyLabels(str[..i], str[i..]);
    } else {
      assert str[..i] == str;
      ParsedEnd(str, octets, octetIndex, currentOctet);
    }
    if octetIndex == 3 {
      octets := octets[3 := currentOctet];
      for k := 0 to 4
        invariant ip[..k] == octets[..k]
      {
        ip[k] := octets[k];
      }
      return 0;
    }
    return -1;
  }

  // ---------------------------------------------------------------- the printer

  lemma DecimalCases(n: byte)
    ensures Decimal(n) ==
            (if n >= 100 then [ZERO + n / 100] else []) + (if n >= 10 then [ZERO + n % 100 / 10] else []) + [ZERO + n % 10]
  {
    DecimalLength(n);
    assert n / 10 / 10 == n / 100 && n / 10 % 10 == n % 100 / 10;
  }

  method PutDecimal(n: byte, str: array<byte>, at: nat) returns (pos: nat)
    requires at + |Decimal(n)| <= str.Length
    modifies str
    ensures pos == at + |Decimal(n)|
    ensures str[..pos] == old(str[..at]) + Decimal(n)
    ensures forall k | pos <= k < str.Length :: str[k] == old(str[k])
  {
    DecimalCases(n);
    var octet := n;
    pos := at;
    if octet >= 100 {
      str[pos] := ZERO + octet / 100;
      pos := pos + 1;
      octet := octet % 100;
    }
    if octet >= 10 || n >= 100 {
      str[pos] := ZERO + octet / 10;
      pos := pos + 1;
      octet := octet % 10;
    }
    str[pos] := ZERO + octet;
    pos := pos + 1;
  }

  /** What is printed before octet `i`. */
  ghost function Front(ip: seq<byte>, i: nat): seq<byte>
    requires |ip| == 4 && i <= 4
  {
    if i == 0 then [] else Front(ip, i - 1) + Decimal(ip[i - 1]) + (if i < 4 then [DOT] else [])
  }

  lemma FrontIsPrinted(ip: seq<byte>)
    requires |ip| == 4
    ensures Front(ip, 4) == Printed(ip)
  {
    var a, b, c, d := Decimal(ip[0]), Decimal(ip[1]), Decimal(ip[2]), Decimal(ip[3]);
    hide Decimal, Dotted;
    FourDotted(a, b, c, d);
    assert Front(ip, 1) == a + [DOT];
    assert Front(ip, 2) == Front(ip, 1) + b + [DOT];
    assert Front(ip, 3) == Front(ip, 2) + c + [DOT];
    assert Front(ip, 4) == Front(ip, 3) + d;
  }

  lemma FrontShort(ip: seq<byte>, i: nat)
    requires |ip| == 4 && i < 4
    ensures |Front(ip, i)| <= 4 * i
    ensures |Front(ip, i + 1)| == |Front(ip, i)| + |Decimal(ip[i])| + (if i < 3 then 1 else 0)
    ensures |Front(ip, i)| + |Decimal(ip[i])| <= 4 * i + 3
  {
    DecimalLength(ip[i]);
    if i > 0 {
      FrontShort(ip, i - 1);
    }
  }

  method IpToString(ip: array<byte>, str: array<byte>)
    requires ip.Length == 4 && str.Length >= 16 && ip != str
    modifies str
    ensures var text := Printed(ip[..]);
            |text| < str.Length && str[..|text| + 1] == text + [0] && str[|text| + 1..] == old(str[..])[|text| + 1..]
  {
    ghost var a, was := ip[..], str[..];
    var pos := 0;
    for i := 0 to 4
      invariant pos == |Front(a, i)| <= 15 && ip[..] == a
      invariant str[..pos] == Front(a, i)
      invariant forall k | pos <= k < str.Length :: str[k] == was[k]
    {
      FrontShort(a, i);
      pos := PutDecimal(ip[i], str, pos);
      assert str[..pos] == Front(a, i) + Decimal(a[i]);
      if i < 3 {
        str[pos] := DOT;
        pos := pos + 1;
      }
    }
    str[pos] := 0;
    FrontIsPrinted(a);
  }
}
