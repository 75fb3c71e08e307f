/** The walk over the options of a DHCP reply (section 2 of RFC 2132). */
module Dhcp {
  import opened Bytes

  const END: byte := 255
  const LIMIT := 300                  // no option is read that starts here or later
  const WINDOW := LIMIT + 2 + 255 + 1 // how far the walk can look

  const SUBNET_MASK: byte := 1
  const ROUTER: byte := 3
  const DNS_SERVER: byte := 6

  /** The addresses the walk sets, each four bytes. */
  datatype Config = Config(mask: seq<byte>, gateway: seq<byte>, dns: seq<byte>)

  datatype Option = Option(code: byte, data: seq<byte>)

  // ---------------------------------------------------------------- specification

  predicate Serializable(o: Option) {
    o.code != END && |o.data| <= 255
  }

  function OptionBytes(o: Option): seq<byte> {
    [o.code, |o.data| % 0x100] + o.data
  }

  function Serialized(os: seq<Option>): seq<byte>
    decreases |os|
  {
    if os == [] then [] else OptionBytes(os[0]) + Serialized(os[1..])
  }

  /** Whether an option of this code and length sets the field of code `field`. */
  predicate Sets(code: byte, len: nat, field: byte) {
    code == field && (if field == SUBNET_MASK then len == 4 else len >= 4)
  }

  function Applied(c: Config, o: Option): Config {
    if Sets(o.code, |o.data|, SUBNET_MASK) then c.(mask := o.data[..4])
    else if Sets(o.code, |o.data|, ROUTER) then c.(gateway := o.data[..4])
    else if Sets(o.code, |o.data|, DNS_SERVER) then c.(dns := o.data[..4])
    else c
  }

  function AllApplied(c: Config, os: seq<Option>): Config
    decreases |os|
  {
    if os == [] then c else AllApplied(Applied(c, os[0]), os[1..])
  }

  /** The options that start before the limit when the first one starts at `at`. */
  function Reachable(os: seq<Option>, at: nat): seq<Option> {
    if os == [] || at >= LIMIT then [] else [os[0]] + Reachable(os[1..], at + 2 + |os[0].data|)
  }

  // ---------------------------------------------------------------- the walk

  /** What the loop does from position `at` on. */
  function Walk(c: Config, options: seq<byte>, at: nat): Config
    requires |options| >= WINDOW && at < LIMIT + 2 + 255
    decreases |options| - at
  {
    if options[at] == END || at >= LIMIT then c
    else
      var len := options[at + 1] as int;
      Walk(Applied(c, Option(options[at], options[at + 2..at + 2 + len])), options, at + 2 + len)
  }

  method ProcessOptions(c: Config, options: array<byte>) returns (r: Config)
    requires options.Length >= WINDOW
    ensures r == Walk(c, options[..], 0)
  {
    r := c;
    var pos := 0;
    hide Walk;
    while options[pos] != END && pos < LIMIT
      invariant 0 <= pos < LIMIT + 2 + 255
      invariant Walk(c, options[..], 0) == Walk(r, options[..], pos)
      decreases options.Length - pos
    {
      ghost var before := r;
      WalkStep(r, options[..], pos);
      var code, len := options[pos], options[pos + 1] as int;
      pos := pos + 2;
      match code {
        case 1 => if len == 4 { r := r.(mask := options[pos..pos + 4]); }
        case 3 => if len >= 4 { r := r.(gateway := options[pos..pos + 4]); }
        case 6 => if len >= 4 { r := r.(dns := options[pos..pos + 4]); }
        case _ =>
      }
      FirstFour(options[..], pos, len);
      assert r == Applied(before, Option(code, options[..][pos..pos + len]));
      pos := pos + len;
    }
    WalkStep(r, options[..], pos);
  }

  lemma WalkStep(c: Config, options: seq<byte>, at: nat)
    requires |options| >= WINDOW && at < LIMIT + 2 + 255
    ensures options[at] == END || at >= LIMIT ==> Walk(c, options, at) == c
    ensures options[at] != END && at < LIMIT ==>
              var len := options[at + 1] as int;
              Walk(c, options, at) == Walk(Applied(c, Option(options[at], options[at + 2..at + 2 + len])), options, at + 2 + len)
  {
  }

  lemma FirstFour(s: seq<byte>, at: nat, len: nat)
    requires at + len <= |s|
    ensures len >= 4 ==> s[at..at + len][..4] == s[at..at + 4]
  {
  }

  // ---------------------------------------------------------------- properties

  /** The option that the walk reads at `at` when the bytes from there on are those of `o` and then `rest`. */
  lemma OptionRead(o: Option, rest: seq<byte>, options: seq<byte>, at: nat)
    requires Serializable(o) && at <= |options|
    requires OptionBytes(o) + rest <= options[at..]
    ensures at + 2 + |o.data| <= |options|
    ensures options[at] == o.code && options[at + 1] as int == |o.data|
    ensures options[at + 2..at + 2 + |o.data|] == o.data
    ensures rest <= options[at + 2 + |o.data|..]
  {
    var s, t := OptionBytes(o) + rest, options[at..];
    var n := 2 + |o.data|;
    assert |s| == n + |rest| <= |t|;
    assert t[0] == s[0] && t[1] == s[1];
    forall k | 0 <= k < |o.data| ensures options[at + 2..at + n][k] == o.data[k] {
      assert t[2 + k] == s[2 + k];
    }
    forall k | 0 <= k < |rest| ensures options[at + n..][k] == rest[k] {
      assert t[n + k] == s[n + k];
    }
  }

  /** The walk ends here: at the code 255, or at position 300 or behind it. */
  predicate Closed(options: seq<byte>, at: nat) {
    at >= 300 || (at < |options| && options[at] == 255)
  }

  /** On a serialised list the walk applies, in order, the options that start before the limit. */
  lemma {:induction false} WalkSerialized(c: Config, os: seq<Option>, options: seq<byte>, at: nat)
    requires |options| >= WINDOW && at < LIMIT + 2 + 255
    requires forall o | o in os :: Serializable(o)
    requires Serialized(os) <= options[at..] && Closed(options, at + |Serialized(os)|)
    ensures Walk(c, options, at) == AllApplied(c, Reachable(os, at))
    decreases |os|
  {
    hide Walk, Serialized, OptionBytes, Applied, Reachable, AllApplied;
    WalkStep(c, options, at);
    ReachableStep(os, at);
    if os == [] {
      SerializedNone();
      AppliedStep(c, []);
    } else {
      var o := os[0];
      assert o in os;
      SerializedStep(os);
      OptionRead(o, Serialized(os[1..]), options, at);
      AppliedStep(c, Reachable(os, at));
      if at < LIMIT { WalkSerialized(Applied(c, o), os[1..], options, at + 2 + |o.data|); }
    }
  }

  lemma SerializedNone()
    ensures Serialized([]) == []
  {
  }

  lemma SerializedStep(os: seq<Option>)
    requires os != []
    ensures Serialized(os) == OptionBytes(os[0]) + Serialized(os[1..])
    ensures |Serialized(os)| == 2 + |os[0].data| + |Serialized(os[1..])|
  {
  }

  lemma ReachableStep(os: seq<Option>, at: nat)
    ensures os == [] || at >= LIMIT ==> Reachable(os, at) == []
    ensures os != [] && at < LIMIT ==>
              var r := Reachable(os, at);
              r != [] && r[0] == os[0] && r[1..] == Reachable(os[1..], at + 2 + |os[0].data|)
  {
  }

  lemma AppliedStep(c: Config, os: seq<Option>)
    ensures AllApplied(c, os) == if os == [] then c else AllApplied(Applied(c, os[0]), os[1..])
  {
  }

  /** The position of the last option that sets `field`, -1 if none does. */
  function LastSetting(os: seq<Option>, field: byte): (r: int)
    ensures -1 <= r < |os|
    ensures r >= 0 ==> Sets(os[r].code, |os[r].data|, field)
    ensures forall k | r < k < |os| :: !Sets(os[k].code, |os[k].data|, field)
  {
    if os == [] then -1
    else if Sets(os[|os| - 1].code, |os[|os| - 1].data|, field) then |os| - 1
    else LastSetting(os[..|os| - 1], field)
  }

  function FieldOf(os: seq<Option>, field: byte, default: seq<byte>): seq<byte>
    requires field in {SUBNET_MASK, ROUTER, DNS_SERVER}
  {
    var r := LastSetting(os, field);
    if r < 0 then default else os[r].data[..4]
  }

  lemma {:induction false} AppliedAppend(c: Config, os: seq<Option>, o: Option)
    ensures AllApplied(c, os + [o]) == Applied(AllApplied(c, os), o)
    decreases |os|
  {
    if os == [] {
      assert ([] + [o])[1..] == [];
    } else {
      assert (os + [o])[1..] == os[1..] + [o];
      AppliedAppend(Applied(c, os[0]), os[1..], o);
    }
  }

  /** Each address ends up as the first four bytes of the last option that sets it, or as it was. */
  lemma {:induction false} LastOptionWins(c: Config, os: seq<Option>)
    ensures AllApplied(c, os) ==
            Config(FieldOf(os, SUBNET_MASK, c.mask), FieldOf(os, ROUTER, c.gateway), FieldOf(os, DNS_SERVER, c.dns))
    decreases |os|
  {
    if os != [] {
      var n := |os| - 1;
      LastOptionWins(c, os[..n]);
      AppliedAppend(c, os[..n], os[n]);
      assert os == os[..n] + [os[n]];
    }
  }

  /** A whole reply: when every option starts before the limit, all of them count. */
  lemma {:induction false} AllReachable(os: seq<Option>, at: nat)
    requires forall o | o in os :: Serializable(o)
    requires os == [] || at + |Serialized(os)| - |OptionBytes(os[|os| - 1])| < LIMIT
    ensures Reachable(os, at) == os
    decreases |os|
  {
    if os != [] {
      var rest := os[1..];
      assert os[0] in os && os == [os[0]] + rest;
      if rest != [] {
        assert rest[|rest| - 1] == os[|os| - 1];
        LastFits(rest);
      }
      AllReachable(rest, at + 2 + |os[0].data|);
    }
  }

  lemma {:induction false} LastFits(os: seq<Option>)
    requires os != [] && forall o | o in os :: Serializable(o)
    ensures |Serialized(os)| >= |OptionBytes(os[|os| - 1])|
  {
    if |os| > 1 {
      assert os[1..][|os| - 2] == os[|os| - 1];
      LastFits(os[1..]);
    } else {
      assert os[0] in os;
    }
  }

  /** The loop on a reply in which every option starts before the limit. */
  lemma ReplyConfigures(c: Config, os: seq<Option>, options: seq<byte>)
    requires |options| >= WINDOW && forall o | o in os :: Serializable(o)
    requires os == [] || |Serialized(os)| - |OptionBytes(os[|os| - 1])| < LIMIT
    requires Serialized(os) <= options && Closed(options, |Serialized(os)|)
    ensures Walk(c, options, 0) ==
            Config(FieldOf(os, SUBNET_MASK, c.mask), FieldOf(os, ROUTER, c.gateway), FieldOf(os, DNS_SERVER, c.dns))
  {
    assert options[0..] == options;
    WalkSerialized(c, os, options, 0);
    AllReachable(os, 0);
    LastOptionWins(c, os);
  }

  // ---------------------------------------------------------------- any reply

  /** The options of a buffer as the walk meets them from position `at` on. */
  function Parsed(options: seq<byte>, at: nat): (os: seq<Option>)
    requires |options| >= WINDOW && at < LIMIT + 2 + 255
    decreases |options| - at
  {
    if options[at] == END || at >= LIMIT then []
    else
      var len := options[at + 1] as int;
      [Option(options[at], options[at + 2..at + 2 + len])] + Parsed(options, at + 2 + len)
  }

  /** Every buffer begins with a list of options that is closed. */
  lemma {:induction false} EveryBufferParsed(options: seq<byte>, at: nat)
    requires |options| >= WINDOW && at < LIMIT + 2 + 255
    ensures var os := Parsed(options, at);
            && (forall o | o in os :: Serializable(o))
            && Serialized(os) <= options[at..] && Closed(options, at + |Serialized(os)|)
    decreases |options| - at
  {
    ParsedStep(options, at);
    hide Parsed, Serialized, OptionBytes;
    if options[at] != END && at < LIMIT {
      var os, next := Parsed(options, at), at + 2 + options[at + 1] as int;
      EveryBufferParsed(options, next);
      SerializedStep(os);
      OptionIsThere(options, at);
      assert options[at..] == options[at..next] + options[next..];
    } else {
      SerializedNone();
    }
  }

  lemma ParsedStep(options: seq<byte>, at: nat)
    requires |options| >= WINDOW && at < LIMIT + 2 + 255
    ensures options[at] == END || at >= LIMIT ==> Parsed(options, at) == []
    ensures options[at] != END && at < LIMIT ==>
              var os, next := Parsed(options, at), at + 2 + options[at + 1] as int;
              os != [] && os[0] == Option(options[at], options[at + 2..next]) && os[1..] == Parsed(options, next)
  {
  }

  lemma OptionIsThere(options: seq<byte>, at: nat)
    requires at + 2 <= |options| && at + 2 + options[at + 1] as int <= |options|
    ensures var next := at + 2 + options[at + 1] as int;
            OptionBytes(Option(options[at], options[at + 2..next])) == options[at..next]
  {
  }

  /** The position at which option `i` starts. */
  function StartOf(os: seq<Option>, i: nat): nat
    requires i <= |os|
  {
    |Serialized(os[..i])|
  }

  lemma {:induction false} StartStep(os: seq<Option>, i: nat)
    requires 0 < i <= |os|
    ensures StartOf(os, i) == 2 + |os[0].data| + StartOf(os[1..], i - 1)
  {
    assert os[..i][0] == os[0] && os[..i][1..] == os[1..][..i - 1];
  }

  /** The options that count are those that start before position 300. */
  lemma {:induction false} ReachableIs(os: seq<Option>, at: nat)
    ensures var r := Reachable(os, at);
            && |r| <= |os| && r == os[..|r|]
            && (forall i | 0 <= i < |r| :: at + StartOf(os, i) < 300)
            && (forall i | |r| <= i < |os| :: at + StartOf(os, i) >= 300)
    decreases |os|
  {
    if os != [] {
      assert StartOf(os, 0) == 0;
      if at < LIMIT {
        var next := at + 2 + |os[0].data|;
        ReachableIs(os[1..], next);
        var r := Reachable(os, at);
        assert r[1..] == Reachable(os[1..], next) && r[0] == os[0];
        forall i | 0 <= i < |os| ensures i < |r| <==> at + StartOf(os, i) < 300 {
          if i > 0 { StartStep(os, i); }
        }
      } else {
        assert os[..0] == [];
      }
    }
  }

  /** Option `i` starts before position 300, has the code and a length of at least four; for a mask, of exactly four. */
  predicate Effective(os: seq<Option>, i: int, code: byte)
    requires 0 <= i < |os|
  {
    os[i].code == code && StartOf(os, i) < 300 && (if code == 1 then |os[i].data| == 4 else |os[i].data| >= 4)
  }

  /** `x` is the first four bytes of the last such option, or the old value if there is none. */
  predicate LastEffective(os: seq<Option>, code: byte, default: seq<byte>, x: seq<byte>) {
    if exists i | 0 <= i < |os| :: Effective(os, i, code) then
      exists i | 0 <= i < |os| :: Effective(os, i, code) && (forall j | i < j < |os| :: !Effective(os, j, code)) && x == os[i].data[..4]
    else x == default
  }

  lemma FieldIsLast(os: seq<Option>, code: byte, default: seq<byte>)
    requires code in {1, 3, 6}
    ensures LastEffective(os, code, default, FieldOf(Reachable(os, 0), code, default))
  {
    var reached := Reachable(os, 0);
    ReachableIs(os, 0);
    var r := LastSetting(reached, code);
    forall i | 0 <= i < |os| ensures Effective(os, i, code) <==> i < |reached| && Sets(reached[i].code, |reached[i].data|, code) {
      assert i < |reached| ==> reached[i] == os[i];
    }
    if r >= 0 { assert Effective(os, r, code) && reached[r] == os[r]; }
  }

  /**
   Any reply: mask, gateway and name server are the first four bytes of the last option of code 1 and length
   four, and of code 3 and of code 6 and length at least four, that starts before position 300; each stays as
   it was if there is none.
   */
  lemma AnyReply(c: Config, options: seq<byte>)
    requires |options| >= WINDOW
    ensures var os, r := Parsed(options, 0), Walk(c, options, 0);
            LastEffective(os, 1, c.mask, r.mask) && LastEffective(os, 3, c.gateway, r.gateway) && LastEffective(os, 6, c.dns, r.dns)
  {
    var os := Parsed(options, 0);
    EveryBufferParsed(options, 0);
    WalkSerialized(c, os, options, 0);
    LastOptionWins(c, Reachable(os, 0));
    hide Walk, Parsed, Reachable, FieldOf, LastEffective;
    FieldIsLast(os, 1, c.mask);
    FieldIsLast(os, 3, c.gateway);
    FieldIsLast(os, 6, c.dns);
  }

  /** Of a serialised list these are its own options. */
  lemma {:induction false} ParsedSerialized(os: seq<Option>, options: seq<byte>, at: nat)
    requires |options| >= WINDOW && at < LIMIT + 2 + 255 && forall o | o in os :: Serializable(o)
    requires Serialized(os) <= options[at..] && Closed(options, at + |Serialized(os)|)
    ensures Parsed(options, at) == Reachable(os, at)
    decreases |os|
  {
    hide Parsed, Reachable, Serialized, OptionBytes;
    ParsedStep(options, at);
    ReachableStep(os, at);
    if os == [] {
      SerializedNone();
    } else {
      var o := os[0];
      assert o in os;
      SerializedStep(os);
      OptionRead(o, Serialized(os[1..]), options, at);
      if at < LIMIT { ParsedSerialized(os[1..], options, at + 2 + |o.data|); }
    }
  }
}
