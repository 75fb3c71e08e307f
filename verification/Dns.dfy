/** The question section of a DNS query (sections 3.1 and 4.1.2 of RFC 1035). */
module Dns {
  import opened Bytes
  import opened CStrings

  const PACKET_SIZE := 512
  const HEADER_SIZE := 12
  const MAX_LABEL := 63
  const SUFFIX: seq<byte> := [0, 0, 1, 0, 1]  // end of name, type A, class IN

  // ---------------------------------------------------------------- specification

  /** A label behind the low byte of its length. */
  function Prefix(l: seq<byte>): seq<byte> {
    [|l| % 0x100] + l
  }

  function Prefixed(ls: seq<seq<byte>>): seq<byte> {
    if ls == [] then [] else Prefix(ls[0]) + Prefixed(ls[1..])
  }

  function Question(host: seq<byte>): seq<byte> {
    Prefixed(Labels(host)) + SUFFIX
  }

  /** Reads length-prefixed labels up to the empty one. */
  function Decode(s: seq<byte>): seq<seq<byte>>
    decreases |s|
  {
    if s == [] || s[0] == 0 || s[0] as int > |s| - 1 then []
    else [s[1..1 + s[0] as int]] + Decode(s[1 + s[0] as int..])
  }

  /** Every label is non-empty and short enough for the standard. */
  predicate WellNamed(host: seq<byte>) {
    forall l | l in Labels(host) :: 0 < |l| <= MAX_LABEL
  }

  // ---------------------------------------------------------------- properties

  lemma {:induction false} PrefixedLength(host: seq<byte>)
    ensures |Prefixed(Labels(host))| == |host| + 1
  {
    var ls := Labels(host);
    if host == [] {
      assert ls[1..] == [];
    } else {
      var rest := Labels(host[1..]);
      PrefixedLength(host[1..]);
      if host[0] == DOT { assert ls[1..] == rest; } else { assert ls[1..] == rest[1..]; }
    }
  }

  /** The question takes exactly six bytes more than the hostname, whatever its labels. */
  lemma QuestionLength(host: seq<byte>)
    ensures |Question(host)| == |host| + 6
  {
    PrefixedLength(host);
  }

  lemma DecodeStep(l: seq<byte>, rest: seq<byte>)
    requires 0 < |l| <= MAX_LABEL
    ensures Decode([|l|] + l + rest) == [l] + Decode(rest)
  {
    var s := [|l|] + l + rest;
    assert s[1..1 + |l|] == l && s[1 + |l|..] == rest;
  }

  lemma {:induction false} DecodePrefixed(ls: seq<seq<byte>>, suffix: seq<byte>)
    requires forall l | l in ls :: 0 < |l| <= MAX_LABEL
    requires suffix == [] || suffix[0] == 0
    ensures Decode(Prefixed(ls) + suffix) == ls
  {
    if ls == [] {
      assert Prefixed(ls) + suffix == suffix;
    } else {
      var l, rest := ls[0], Prefixed(ls[1..]) + suffix;
      assert l in ls && |l| % 0x100 == |l|;
      assert Prefixed(ls) + suffix == [|l|] + l + rest;
      DecodePrefixed(ls[1..], suffix);
      hide Decode, Prefixed;
      DecodeStep(l, rest);
    }
  }

  /** A resolver that reads the labels back gets the hostname. */
  lemma DecodeQuestion(host: seq<byte>)
    requires WellNamed(host)
    ensures Dotted(Decode(Question(host))) == host
  {
    DecodePrefixed(Labels(host), SUFFIX);
    DottedLabels(host);
  }

  /** Hence no two hostnames are asked for by the same bytes. */
  lemma QuestionInjective(a: seq<byte>, b: seq<byte>)
    requires WellNamed(a) && WellNamed(b) && Question(a) == Question(b)
    ensures a == b
  {
    DecodeQuestion(a);
    DecodeQuestion(b);
  }

  /** Position `k` of the hostname begins a label that ends before position `m`: at a dot or at the end. */
  predicate LabelSpan(host: seq<byte>, k: nat, m: nat) {
    && k <= m <= |host| && (k == 0 || host[k - 1] == 46) && (m == |host| || host[m] == 46)
    && forall i | k <= i < m :: host[i] != 46
  }

  lemma {:induction false} FirstLabel(host: seq<byte>, m: nat)
    requires LabelSpan(host, 0, m)
    ensures var ls := Labels(host);
            ls[0] == host[..m] && (if m == |host| then ls == [host] else ls[1..] == Labels(host[m + 1..]))
  {
    if m > 0 {
      assert forall i | 0 <= i < m - 1 :: host[1..][i] == host[i + 1];
      FirstLabel(host[1..], m - 1);
      assert host[..m] == [host[0]] + host[1..][..m - 1];
      if m == |host| { assert host == [host[0]] + host[1..]; } else { assert host[1..][m..] == host[m + 1..]; }
    } else if host != [] {
      assert host[..0] == [];
    }
  }

  /**
   The question byte by byte: where a label of the hostname begins there is its length, modulo 256; every
   byte of a label comes one position later; and at the end come the empty label, type 1 and class 1.
   */
  lemma {:induction false} QuestionBytes(host: seq<byte>, k: nat, m: nat)
    requires LabelSpan(host, k, m)
    ensures |Prefixed(Labels(host))| == |host| + 1 && |Question(host)| == |host| + 6
    ensures Question(host)[k] == (m - k) % 256
    ensures forall i | k <= i < m :: Question(host)[i + 1] == host[i]
    ensures Question(host)[|host| + 1..] == [0, 0, 1, 0, 1]
    decreases |host|
  {
    PrefixedLength(host);
    SpanBytes(host, k, m);
  }

  lemma {:induction false} SpanBytes(host: seq<byte>, k: nat, m: nat)
    requires LabelSpan(host, k, m)
    ensures |Prefixed(Labels(host))| == |host| + 1
    ensures Prefixed(Labels(host))[k] == (m - k) % 256
    ensures forall i | k <= i < m :: Prefixed(Labels(host))[i + 1] == host[i]
    decreases |host|
  {
    PrefixedLength(host);
    var e := SpanEnd(host);
    FirstLabel(host, e);
    var ls := Labels(host);
    assert Prefixed(ls) == Prefix(ls[0]) + Prefixed(ls[1..]);
    if k == 0 {
      assert m == e;
    } else {
      assert k > e;
      var rest := host[e + 1..];
      assert forall i | 0 <= i < |rest| :: rest[i] == host[e + 1 + i];
      SpanBytes(rest, k - e - 1, m - e - 1);
      forall i | k <= i < m ensures Prefixed(ls)[i + 1] == host[i] { assert Prefixed(ls[1..])[i - e] == rest[i - e - 1]; }
    }
  }

  /** Where the first label ends. */
  function SpanEnd(host: seq<byte>): (m: nat)
    ensures LabelSpan(host, 0, m)
  {
    if host == [] || host[0] == 46 then 0
    else
      var r := SpanEnd(host[1..]);
      assert forall i | 1 <= i < r + 1 :: host[i] == host[1..][i - 1];
      r + 1
  }

  // ---------------------------------------------------------------- the loop

  /** The label being collected, in front of what is left of the hostname. */
  ghost function Pending(piece: seq<byte>, rest: seq<byte>): seq<byte> {
    var ls := Labels(rest);
    Prefixed([piece + ls[0]] + ls[1..])
  }

  lemma PendingStep(piece: seq<byte>, rest: seq<byte>)
    requires rest != []
    ensures rest[0] != DOT ==> Pending(piece, rest) == Pending(piece + [rest[0]], rest[1..])
    ensures rest[0] == DOT ==> Pending(piece, rest) == Prefix(piece) + Pending([], rest[1..])
  {
    var ls, tail := Labels(rest), Labels(rest[1..]);
    if rest[0] == DOT {
      assert piece + [] == piece && [] + tail[0] == tail[0];
      assert [tail[0]] + tail[1..] == tail;
      assert ([piece] + tail)[1..] == tail;
    } else {
      assert piece + ([rest[0]] + tail[0]) == piece + [rest[0]] + tail[0];
    }
  }

  lemma PendingEnd(piece: seq<byte>)
    ensures Pending(piece, []) == Prefix(piece)
  {
    var ls := Labels([]);
    assert ls[0] == [] && piece + ls[0] == piece;
    assert [piece + ls[0]] + ls[1..] == [piece];
    assert Prefixed([piece]) == Prefix(piece) + Prefixed([]);
  }

  lemma PendingStart(host: seq<byte>)
    ensures Pending([], host) == Prefixed(Labels(host))
  {
    var ls := Labels(host);
    assert [] + ls[0] == ls[0] && [ls[0]] + ls[1..] == ls;
  }

  /** The bytes of the question up to the label that starts at `from`, given those still to come. */
  ghost predicate Progress(host: seq<byte>, out: seq<byte>, from: nat, i: nat) {
    && from <= i <= |host| + 1 && |out| == from
    && (if i <= |host| then out + Pending(host[from..i], host[i..]) == Prefixed(Labels(host))
        else from == i && out == Prefixed(Labels(host)))
  }

  lemma ProgressInLabel(host: seq<byte>, out: seq<byte>, from: nat, i: nat)
    requires Progress(host, out, from, i) && i < |host| && host[i] != DOT
    ensures Progress(host, out, from, i + 1)
  {
    PendingStep(host[from..i], host[i..]);
    assert host[i..][1..] == host[i + 1..] && host[from..i] + [host[i]] == host[from..i + 1];
  }

  lemma ProgressAtDot(host: seq<byte>, out: seq<byte>, from: nat, i: nat)
    requires Progress(host, out, from, i) && i <= |host| && (i < |host| ==> host[i] == DOT)
    ensures Progress(host, out + Prefix(host[from..i]), i + 1, i + 1)
  {
    var piece, written := host[from..i], Prefix(host[from..i]);
    if i < |host| {
      PendingStep(piece, host[i..]);
      assert host[i..][1..] == host[i + 1..] && host[i + 1..i + 1] == [];
      assert out + (written + Pending([], host[i + 1..])) == out + written + Pending([], host[i + 1..]);
    } else {
      PendingEnd(piece);
      assert host[i..] == [];
    }
  }

  /** Writes the question behind the header; the hostname must leave room for it. */
  method BuildQuestion(host: cstring, packet: array<byte>) returns (pos: nat)
    requires packet.Length == PACKET_SIZE && |host| <= PACKET_SIZE - HEADER_SIZE - 6
    modifies packet
    ensures pos == |host| + 6
    ensures packet[HEADER_SIZE..HEADER_SIZE + pos] == Question(host)
    ensures packet[..HEADER_SIZE] == old(packet[..HEADER_SIZE])
  {
    pos := 0;
    var labelStart := 0;
    PendingStart(host);
    ghost var out: seq<byte> := [];
    hide Labels, Prefixed, Pending;
    assert host[0..0] == [] && host[0..] == host && out + Pending([], host) == Pending([], host);
    var i := 0;
    while i <= |host|
      invariant pos == labelStart <= |host| + 1 && packet[HEADER_SIZE..HEADER_SIZE + pos] == out
      invariant Progress(host, out, labelStart, i)
      invariant packet[..HEADER_SIZE] == old(packet[..HEADER_SIZE])
      decreases |host| - i
    {
      if At(host, i) == DOT || At(host, i) == 0 {
        ProgressAtDot(host, out, labelStart, i);
        pos := AppendLabel(packet, pos, host[labelStart..i]);
        out := out + Prefix(host[labelStart..i]);
        labelStart := i + 1;
      } else {
        ProgressInLabel(host, out, labelStart, i);
      }
      i := i + 1;
    }
    pos := AppendSuffix(packet, pos);
  }

  method AppendSuffix(packet: array<byte>, pos: nat) returns (next: nat)
    requires HEADER_SIZE + pos + 5 <= packet.Length
    modifies packet
    ensures next == pos + 5
    ensures packet[HEADER_SIZE..HEADER_SIZE + next] == old(packet[HEADER_SIZE..HEADER_SIZE + pos]) + SUFFIX
    ensures packet[..HEADER_SIZE] == old(packet[..HEADER_SIZE])
  {
    var k := HEADER_SIZE + pos;
    packet[k] := 0;
    packet[k + 1], packet[k + 2] := 0, 1;
    packet[k + 3], packet[k + 4] := 0, 1;
    next := pos + 5;
  }

  /** One length byte and the label behind it. */
  method AppendLabel(packet: array<byte>, pos: nat, piece: seq<byte>) returns (next: nat)
    requires HEADER_SIZE + pos + 1 + |piece| <= packet.Length
    modifies packet
    ensures next == pos + 1 + |piece|
    ensures packet[HEADER_SIZE..HEADER_SIZE + next] == old(packet[HEADER_SIZE..HEADER_SIZE + pos]) + Prefix(piece)
    ensures packet[..HEADER_SIZE] == old(packet[..HEADER_SIZE])
  {
    packet[HEADER_SIZE + pos] := |piece| % 0x100;
    for k := 0 to |piece|
      invariant packet[HEADER_SIZE + pos] == |piece| % 0x100
      invariant forall j | 0 <= j < k :: packet[HEADER_SIZE + pos + 1 + j] == piece[j]
      invariant forall j | 0 <= j < HEADER_SIZE + pos :: packet[j] == old(packet[j])
    {
      packet[HEADER_SIZE + pos + 1 + k] := piece[k];
    }
    next := pos + 1 + |piece|;
  }
}
