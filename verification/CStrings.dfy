/** Strings of non-zero bytes, the splitting of paths, and the C routines that work on them. */
module CStrings {
  import opened Bytes

  const SLASH: byte := 47
  const DOT: byte := 46

  /** What a NUL-terminated string can hold. */
  type cstring = s: seq<byte> | 0 !in s

  // ---------------------------------------------------------------- splitting

  /** The length of the run at the front of `s` of bytes that are (or are not) in `delim`. */
  function Run(s: seq<byte>, delim: seq<byte>, inside: bool): (n: nat)
    ensures n <= |s|
  {
    if s == [] || (s[0] in delim) != inside then 0 else 1 + Run(s[1..], delim, inside)
  }

  lemma {:induction false} RunIsMaximal(s: seq<byte>, delim: seq<byte>, inside: bool)
    ensures var n := Run(s, delim, inside);
            && (forall i | 0 <= i < n :: (s[i] in delim) == inside)
            && (n < |s| ==> (s[n] in delim) != inside)
  {
    if s != [] && (s[0] in delim) == inside {
      RunIsMaximal(s[1..], delim, inside);
      forall i | 0 <= i < Run(s, delim, inside) ensures (s[i] in delim) == inside {
        assert i > 0 ==> s[i] == s[1..][i - 1];
      }
    }
  }

  /** The maximal runs of bytes outside `delim`, in order. */
  function Split(s: seq<byte>, delim: seq<byte>): (r: seq<seq<byte>>)
    decreases |s|
  {
    var skipped := s[Run(s, delim, true)..];
    RunIsMaximal(s, delim, true);
    var n := Run(skipped, delim, false);
    if skipped == [] then [] else [skipped[..n]] + Split(skipped[n..], delim)
  }

  /** The pieces of a text between dots, empty ones included. */
  function Labels(text: seq<byte>): (ls: seq<seq<byte>>)
    ensures ls != []
  {
    if text == [] then [[]]
    else
      var rest := Labels(text[1..]);
      if text[0] == DOT then [[]] + rest else [[text[0]] + rest[0]] + rest[1..]
  }

  function Dotted(ls: seq<seq<byte>>): seq<byte> {
    if ls == [] then [] else if |ls| == 1 then ls[0] else ls[0] + [DOT] + Dotted(ls[1..])
  }

  lemma {:induction false} DottedLabels(text: seq<byte>)
    ensures Dotted(Labels(text)) == text
  {
    if text != [] {
      var ls, rest := Labels(text), Labels(text[1..]);
      DottedLabels(text[1..]);
      if text[0] == DOT {
        assert ls[1..] == rest;
      } else {
        assert ls[1..] == rest[1..];
      }
      assert text == [text[0]] + text[1..];
    }
  }

  /** A list of components as a path with a leading slash before each. */
  function Join(names: seq<seq<byte>>): (s: seq<byte>) {
    if names == [] then [] else [SLASH] + names[0] + Join(names[1..])
  }

  predicate Component(name: seq<byte>) {
    name != [] && SLASH !in name
  }

  lemma {:induction false} RunOfPrefix(a: seq<byte>, b: seq<byte>, delim: seq<byte>, inside: bool)
    requires forall i | 0 <= i < |a| :: (a[i] in delim) == inside
    requires b == [] || (b[0] in delim) != inside
    ensures Run(a + b, delim, inside) == |a|
  {
    if a == [] {
      assert a + b == b;
    } else {
      assert (a + b)[1..] == a[1..] + b;
      RunOfPrefix(a[1..], b, delim, inside);
    }
  }

  /** A delimiter in front makes no difference. */
  lemma SplitSkip(s: seq<byte>, delim: seq<byte>)
    requires s != [] && s[0] in delim
    ensures Split(s, delim) == Split(s[1..], delim)
  {
    assert Run(s, delim, true) == 1 + Run(s[1..], delim, true);
    assert s[1..][Run(s[1..], delim, true)..] == s[Run(s, delim, true)..];
  }

  lemma SplitParts(s: seq<byte>, delim: seq<byte>)
    ensures var skipped := s[Run(s, delim, true)..];
            var n := Run(skipped, delim, false);
            if skipped == [] then Split(s, delim) == []
            else Split(s, delim) == [skipped[..n]] + Split(skipped[n..], delim)
    ensures Split([], delim) == []
  {
  }

  /** Splitting undoes joining. */
  lemma {:induction false} SplitJoin(names: seq<seq<byte>>)
    requires forall n | n in names :: Component(n)
    ensures Split(Join(names), [SLASH]) == names
  {
    if names != [] {
      var rest := Join(names[1..]);
      var s := Join(names);
      assert s == [SLASH] + (names[0] + rest);
      assert Component(names[0]);
      RunOfPrefix([SLASH], names[0] + rest, [SLASH], true);
      assert s[1..] == names[0] + rest;
      RunOfPrefix(names[0], rest, [SLASH], false);
      SplitJoin(names[1..]);
    }
  }

  /** A path without a slash is its own only component. */
  lemma SplitComponent(name: seq<byte>)
    requires Component(name)
    ensures Split(name, [SLASH]) == [name]
  {
    assert name + [] == name;
    RunOfPrefix(name, [], [SLASH], false);
    assert Run(name, [SLASH], true) == 0;
    assert name[0..] == name;
    assert Split([], [SLASH]) == [];
  }

  /** Every component found in a path is non-empty and free of slashes. */
  lemma {:induction false} SplitComponents(s: seq<byte>)
    ensures forall n | n in Split(s, [SLASH]) :: Component(n)
    decreases |s|
  {
    hide Run, Split;
    var skipped := s[Run(s, [SLASH], true)..];
    var n := Run(skipped, [SLASH], false);
    SplitParts(s, [SLASH]);
    if skipped != [] {
      RunIsMaximal(s, [SLASH], true);
      RunIsMaximal(skipped, [SLASH], false);
      SplitComponents(skipped[n..]);
      assert Component(skipped[..n]);
    }
  }

  /** A delimiter anywhere splits a text in two, and each side is split by itself. */
  lemma {:induction false} SplitConcat(a: seq<byte>, d: byte, b: seq<byte>, delim: seq<byte>)
    requires d in delim
    ensures Split(a + [d] + b, delim) == Split(a, delim) + Split(b, delim)
    decreases |a|
  {
    var s := a + [d] + b;
    hide Run, Split;
    SplitParts(a, delim);
    if a == [] {
      RunIsMaximal(a, delim, true);
      assert s == [d] + b && s[1..] == b;
      SplitSkip(s, delim);
    } else if a[0] in delim {
      assert s[1..] == a[1..] + [d] + b;
      SplitSkip(s, delim);
      SplitSkip(a, delim);
      SplitConcat(a[1..], d, b, delim);
    } else {
      var n := Run(a, delim, false);
      RunIsMaximal(a, delim, false);
      RunIsMaximal(s, delim, true);
      RunIsMaximal(a, delim, true);
      var rest := a[n..] + [d] + b;
      assert s == a[..n] + rest;
      RunOfPrefix(a[..n], rest, delim, false);
      SplitParts(s, delim);
      assert s[..n] == a[..n] && s[n..] == rest && a[0..] == a && s[0..] == s;
      SplitConcat(a[n..], d, b, delim);
    }
  }

  /** Nothing is found only where there is nothing but delimiters. */
  lemma {:induction false} SplitEmptyIff(s: seq<byte>, delim: seq<byte>)
    ensures Split(s, delim) == [] <==> forall i | 0 <= i < |s| :: s[i] in delim
  {
    hide Run, Split;
    SplitParts(s, delim);
    RunIsMaximal(s, delim, true);
  }

  /** A first piece of `n` bytes at the front of a text has a delimiter behind it, or nothing. */
  lemma SplitFirst(s: seq<byte>, delim: seq<byte>, n: nat)
    requires 0 < n <= |s| && s[0] !in delim && Split(s, delim) != [] && Split(s, delim)[0] == s[..n]
    ensures n < |s| ==> s[n] in delim
  {
    hide Run, Split;
    SplitParts(s, delim);
    RunIsMaximal(s, delim, true);
    assert s[0..] == s;
    RunIsMaximal(s, delim, false);
    assert |s[..n]| == n && |s[..Run(s, delim, false)]| == Run(s, delim, false);
  }

  // ---------------------------------------------------------------- the C routines

  function At(s: cstring, i: nat): byte
    requires i <= |s|
  {
    if i < |s| then s[i] else 0
  }

  /** A byte as the kernel's signed char. */
  function Char(b: byte): int {
    if b < 0x80 then b else b - 0x100
  }

  /** It runs from -128 to 127 and has the byte's residue. */
  lemma CharIs(b: byte)
    ensures -128 <= Char(b) < 128 && (Char(b) - b) % 256 == 0
  {
  }

  /** The strings agree up to position `k` and differ there; an end counts as 0. */
  ghost predicate DifferAt(a: cstring, b: cstring, k: nat) {
    k <= |a| && k <= |b| && a[..k] == b[..k] && At(a, k) != At(b, k)
  }

  method StrCmp(a: cstring, b: cstring) returns (r: int)
    ensures r == 0 <==> a == b
    ensures forall k | DifferAt(a, b, k) :: r == Char(At(a, k)) - Char(At(b, k))
  {
    var i := 0;
    while At(a, i) != 0 && At(b, i) != 0 && At(a, i) == At(b, i)
      invariant i <= |a| && i <= |b| && a[..i] == b[..i]
      decreases |a| - i
    {
      i := i + 1;
    }
    r := Char(At(a, i)) - Char(At(b, i));
    forall k | DifferAt(a, b, k) ensures k == i { SameDifference(a, b, i, k); }
  }

  lemma SameDifference(a: cstring, b: cstring, i: nat, k: nat)
    requires DifferAt(a, b, k) && i <= |a| && i <= |b| && a[..i] == b[..i]
    requires At(a, i) == 0 || At(b, i) == 0 || At(a, i) != At(b, i)
    ensures k == i
  {
    forall j | 0 <= j < i ensures a[j] == b[j] { assert a[..i][j] == b[..i][j]; }
    forall j | 0 <= j < k ensures a[j] == b[j] && a[j] != 0 { assert a[..k][j] == b[..k][j] && a[j] in a; }
  }

  method StrChr(s: cstring, c: byte) returns (found: bool)
    ensures found <==> c in s
  {
    for i := 0 to |s|
      invariant c !in s[..i]
    {
      if s[i] == c { return true; }
    }
    found := false;
  }

  /** The string in a buffer from offset `i` up to the next NUL. */
  function Text(b: seq<byte>, i: int): (s: cstring)
    requires 0 <= i <= |b|
    ensures i + |s| <= |b|
    decreases |b| - i
  {
    if i == |b| || b[i] == 0 then [] else [b[i]] + Text(b, i + 1)
  }

  lemma {:induction false} TextBytes(b: seq<byte>, i: int)
    requires 0 <= i <= |b|
    ensures var s := Text(b, i);
            b[i..i + |s|] == s && (i + |s| < |b| ==> b[i + |s|] == 0)
    decreases |b| - i
  {
    if i < |b| && b[i] != 0 {
      TextBytes(b, i + 1);
      assert b[i..i + |Text(b, i)|] == [b[i]] + b[i + 1..i + 1 + |Text(b, i + 1)|];
    }
  }

  /** The text is determined by its bytes and the NUL behind them. */
  lemma {:induction false} TextIs(b: seq<byte>, i: int, s: cstring)
    requires 0 <= i && i + |s| < |b| && b[i..i + |s|] == s && b[i + |s|] == 0
    ensures Text(b, i) == s
    decreases |s|
  {
    if s != [] {
      assert b[i] == b[i..i + |s|][0] == s[0];
      assert b[i + 1..i + |s|] == s[1..];
      TextIs(b, i + 1, s[1..]);
    }
  }

  lemma TextStep(b: seq<byte>, i: int)
    requires 0 <= i < |b| && b[i] != 0
    ensures Text(b, i) == [b[i]] + Text(b, i + 1)
  {
  }

  /** Past a byte, the text is the tail of the text before it. */
  lemma RunStep(b: seq<byte>, i: int, delim: seq<byte>, inside: bool)
    requires 0 <= i < |b| && b[i] != 0 && (b[i] in delim) == inside
    ensures Run(Text(b, i), delim, inside) == 1 + Run(Text(b, i + 1), delim, inside)
    ensures Text(b, i + 1) == Text(b, i)[1..]
  {
    TextStep(b, i);
  }

  /** Writing a NUL at `k` ends the text before it there and leaves the text behind it. */
  lemma CutText(b: seq<byte>, i: int, k: int)
    requires 0 <= i <= k < |b| && k < i + |Text(b, i)| < |b|
    ensures Text(b[k := 0], i) == Text(b, i)[..k - i]
    ensures Text(b[k := 0], k + 1) == Text(b, k + 1) && Text(b, i)[k - i..] == [b[k]] + Text(b, k + 1)
    ensures k + 1 + |Text(b, k + 1)| == i + |Text(b, i)|
    decreases k - i
  {
    TextBytes(b, i);
    assert b[i] != 0;
    if i < k {
      CutText(b, i + 1, k);
    } else {
      TextSame(b, b[k := 0], k + 1);
    }
  }

  lemma {:induction false} TextSame(b: seq<byte>, c: seq<byte>, i: int)
    requires 0 <= i <= |b| == |c| && b[i..] == c[i..]
    ensures Text(b, i) == Text(c, i)
    decreases |b| - i
  {
    if i < |b| {
      assert b[i] == b[i..][0] == c[i..][0] == c[i];
      assert b[i + 1..] == b[i..][1..] == c[i..][1..] == c[i + 1..];
      TextSame(b, c, i + 1);
    }
  }

  lemma RunStop(b: seq<byte>, i: int, delim: seq<byte>, inside: bool)
    requires 0 <= i < |b| && (b[i] == 0 || (b[i] in delim) != inside)
    ensures Run(Text(b, i), delim, inside) == 0
  {
  }

  /** strcmp against the string that starts at offset `i` of a buffer. */
  method StrCmpAt(a: cstring, b: array<byte>, i: nat) returns (r: int)
    requires i < b.Length && i + |Text(b[..], i)| < b.Length
    ensures r == 0 <==> a == Text(b[..], i)
    ensures forall k | DifferAt(a, Text(b[..], i), k) :: r == Char(At(a, k)) - Char(At(Text(b[..], i), k))
  {
    ghost var t := Text(b[..], i);
    TextBytes(b[..], i);
    var k := 0;
    while At(a, k) != 0 && b[i + k] != 0 && At(a, k) == b[i + k]
      invariant k <= |a| && k <= |t| && a[..k] == t[..k]
      decreases |a| - k
    {
      assert t[k] == b[..][i..i + |t|][k];
      k := k + 1;
    }
    assert k < |t| ==> t[k] == b[..][i..i + |t|][k];
    assert At(t, k) == b[i + k];
    r := Char(At(a, k)) - Char(b[i + k]);
    forall j | DifferAt(a, t, j) ensures j == k { SameDifference(a, t, k, j); }
  }

  /** strtok with its static cursor: where the next call goes on. -1 stands for a null pointer. */
  class Tokenizer {
    var text: array<byte>
    var saved: int

    ghost predicate Valid()
      reads this, text
    {
      -1 <= saved < text.Length && (saved >= 0 ==> saved + |Text(text[..], saved)| < text.Length)
    }

    /** The part of the string that has not been handed out. */
    ghost function Rest(): cstring
      requires Valid()
      reads this, text
    {
      if saved < 0 then [] else Text(text[..], saved)
    }

    constructor ()
      ensures Valid() && Rest() == [] && fresh(text)
    {
      text := new byte[0];
      saved := -1;
    }

    /** A first call, with a string: the cursor moves to its start. */
    method Begin(str: array<byte>)
      requires str.Length > 0 && |Text(str[..], 0)| < str.Length
      modifies this
      ensures text == str && Valid() && Rest() == Text(str[..], 0)
    {
      text := str;
      saved := 0;
    }

    /** Moves the cursor over the run of bytes that are (or are not) delimiters. */
    method Skip(delim: cstring, inside: bool)
      requires Valid() && saved >= 0
      modifies this`saved
      ensures Valid() && saved >= 0
      ensures saved == old(saved) + Run(old(Rest()), delim, inside)
      ensures Rest() == old(Rest())[Run(old(Rest()), delim, inside)..]
    {
      hide Run, Text;
      ghost var b, start := text[..], saved;
      ghost var rest := Text(b, start);
      var c := text[saved];
      var found := StrChr(delim, c);
      while c != 0 && found == inside
        invariant start <= saved <= start + |rest| < |b|
        invariant Text(b, saved) == rest[saved - start..]
        invariant c == text[saved] && found == (c in delim)
        invariant Run(rest, delim, inside) == saved - start + Run(Text(b, saved), delim, inside)
        decreases |b| - saved
      {
        RunStep(b, saved, delim, inside);
        saved := saved + 1;
        c := text[saved];
        found := StrChr(delim, c);
      }
      RunStop(b, saved, delim, inside);
    }

    /** The next token, terminated in place; -1 when there is none. */
    method Next(delim: cstring) returns (token: int)
      requires Valid()
      modifies this, text
      ensures Valid() && text == old(text)
      ensures var tokens := Split(old(Rest()), delim);
              if tokens == [] then token == -1 && Rest() == []
              else
                && 0 <= token < text.Length && token + |Text(text[..], token)| < text.Length
                && Text(text[..], token) == tokens[0]
                && Split(Rest(), delim) == tokens[1..] && |Rest()| < |old(Rest())|
    {
      hide Run, Text, Split;
      SplitParts(Rest(), delim);
      if saved < 0 { return -1; }
      ghost var b := text[..];
      Skip(delim, true);
      TextBytes(b, saved);
      if text[saved] == 0 { return -1; }
      ghost var rest, start := Text(b, saved), saved;
      token := saved;
      Skip(delim, false);
      TextBytes(b, saved);
      RunIsMaximal(rest, delim, false);
      if text[saved] != 0 {
        CutText(b, start, saved);
        SplitSkip(Text(b, saved), delim);
        text[saved] := 0;
        assert text[..] == b[saved := 0];
        saved := saved + 1;
      } else {
        saved := -1;
      }
    }
  }
}
