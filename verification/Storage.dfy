/** The ATA drive behind its ports, and the sector calls of both handles. */
module KernelStorage {
  import opened Bytes
  import opened Wrappers
  import S = StorageSpec
  import opened StorageSpec

  const POLLS := 10000
  const WORDS := 256

  lemma AddressBytes(lba: uint32)
    requires lba < 0x1000_0000
    ensures lba == lba % 0x100 + 0x100 * (lba / 0x100 % 0x100) + 0x1_0000 * (lba / 0x1_0000 % 0x100)
                   + 0x100_0000 * (lba / 0x100_0000 % 0x10)
  {
    var a, b, c := lba / 0x100, lba / 0x1_0000, lba / 0x100_0000;
    assert a / 0x100 == b;
    assert b / 0x100 == c;
    assert c % 0x10 == c;
  }

  lemma HeadBits(n: nat)
    requires n < 0x10
    ensures (0xE0 + n) % 0x10 == n
  {
  }

  // the bits of the status register: busy 0x80, ready 0x40, data request 0x08, error 0x01

  predicate Ready(status: bv8) {
    status & 0x80 == 0 && status & 0x40 != 0
  }

  predicate Requests(status: bv8) {
    status & 0x80 == 0 && status & 0x08 != 0
  }

  predicate Errs(status: bv8) {
    status & 0x01 != 0
  }

  /** The bits by their values: 128 busy, 64 ready, 8 data request, 1 error. */
  lemma StatusBits(status: bv8)
    ensures Ready(status) <==> status as int / 128 == 0 && status as int / 64 % 2 == 1
    ensures Requests(status) <==> status as int / 128 == 0 && status as int / 8 % 2 == 1
    ensures Errs(status) <==> status as int % 2 == 1
  {
    assert status as int / 128 == (status / 128) as int && status as int / 64 == (status / 64) as int;
  }

  /** The drive: what it stores, its address registers, and the data passing through its port. */
  class Drive {
    var disk: seq<Sector>
    var low: byte
    var mid: byte
    var high: byte
    var head: byte
    var port: seq<byte>

    constructor (content: seq<Sector>)
      ensures disk == content
    {
      disk := content;
      low, mid, high, head := 0, 0, 0, 0;
      port := [];
    }

    /** The sector that the registers select; the head register holds its top four bits. */
    function Selected(): nat
      reads this
    {
      low + 0x100 * mid + 0x1_0000 * high + 0x100_0000 * (head % 0x10)
    }

    /** `polls` are the values of the status register that were read. */
    method WaitReady() returns (r: int, ghost polls: seq<bv8>)
      ensures |polls| <= POLLS
      ensures r == 0 ==> polls != [] && Ready(polls[|polls| - 1]) && forall i | 0 <= i < |polls| - 1 :: !Ready(polls[i])
      ensures r != 0 ==> r == -1 && |polls| == POLLS && forall i | 0 <= i < |polls| :: !Ready(polls[i])
    {
      var timeout := POLLS;
      polls := [];
      while timeout > 0
        invariant 0 <= timeout <= POLLS && |polls| == POLLS - timeout
        invariant forall i | 0 <= i < |polls| :: !Ready(polls[i])
      {
        timeout := timeout - 1;
        var status: bv8 := *;
        polls := polls + [status];
        if Ready(status) { return 0, polls; }
      }
      return -1, polls;
    }

    method WaitRequest() returns (r: int, ghost polls: seq<bv8>)
      ensures |polls| <= POLLS
      ensures r == 0 ==> polls != [] && Requests(polls[|polls| - 1])
      ensures r != 0 ==> r == -1 && (|polls| == POLLS || (polls != [] && Errs(polls[|polls| - 1])))
      ensures forall i | 0 <= i < |polls| - 1 :: !Requests(polls[i]) && !Errs(polls[i])
      ensures r != 0 && polls != [] ==> !Requests(polls[|polls| - 1])
    {
      var timeout := POLLS;
      polls := [];
      while timeout > 0
        invariant 0 <= timeout <= POLLS && |polls| == POLLS - timeout
        invariant forall i | 0 <= i < |polls| :: !Requests(polls[i]) && !Errs(polls[i])
      {
        timeout := timeout - 1;
        var status: bv8 := *;
        polls := polls + [status];
        if Requests(status) { return 0, polls; }
        if Errs(status) { return -1, polls; }
      }
      return -1, polls;
    }

    method Select(lba: uint32)
      requires lba < 0x1000_0000
      modifies this`low, this`mid, this`high, this`head
      ensures Selected() == lba
      ensures low == lba % 256 && mid == lba / 256 % 256 && high == lba / 65536 % 256 && head == 224 + lba / 16777216
    {
      low := lba % 0x100;
      mid := lba / 0x100 % 0x100;
      high := lba / 0x1_0000 % 0x100;
      head := 0xE0 + lba / 0x100_0000 % 0x10;
      AddressBytes(lba);
      HeadBits(lba / 0x100_0000 % 0x10);
    }

    /** The 256 words of the selected sector come in through the port. */
    method ReceiveSector(buffer: array<byte>, at: nat)
      requires Selected() < |disk| && at + SECTOR_SIZE <= buffer.Length
      modifies this`port, buffer
      ensures buffer[..] == old(buffer[..at]) + disk[Selected()] + old(buffer[at + SECTOR_SIZE..])
    {
      ghost var data, was := disk[Selected()], buffer[..];
      port := disk[Selected()];
      for i := 0 to WORDS
        invariant port == data[2 * i..]
        invariant forall k | at <= k < at + 2 * i :: buffer[k] == data[k - at]
        invariant forall k | 0 <= k < buffer.Length && !(at <= k < at + 2 * i) :: buffer[k] == was[k]
      {
        var word: uint16 := port[0] as int + 0x100 * port[1] as int;
        assert port[0] == data[2 * i] && port[1] == data[2 * i + 1];
        port := port[2..];
        buffer[at + 2 * i] := word % 0x100;
        buffer[at + 2 * i + 1] := word / 0x100;
      }
    }

    method SendSector(buffer: array<byte>, at: nat)
      requires at + SECTOR_SIZE <= buffer.Length
      modifies this`port
      ensures port == buffer[at..at + SECTOR_SIZE]
    {
      port := [];
      for i := 0 to WORDS
        invariant port == buffer[at..at + 2 * i]
      {
        var word: uint16 := buffer[at + 2 * i] as int + 0x100 * buffer[at + 2 * i + 1] as int;
        port := port + [word % 0x100, word / 0x100];
      }
    }

    /** The drive takes what came through the port, for certain if it then reports ready. */
    method FinishWrite() returns (r: int, ghost kept: bool)
      requires Selected() < |disk| && |port| == SECTOR_SIZE
      modifies this`disk
      ensures r in {0, -1}
      ensures disk == if r == 0 || kept then old(disk)[Selected() := port] else old(disk)
    {
      ghost var polls;
      r, polls := WaitReady();
      var keeps: bool := *;
      if r == 0 || keeps { disk := disk[Selected() := port]; }
      kept := keeps;
    }
  }

  /** The virtual disk's sectors as the mirror holds them. */
  function Sectors(m: seq<byte>): (r: seq<Sector>)
    requires |m| == TOTAL_SECTORS * SECTOR_SIZE
  {
    seq(TOTAL_SECTORS, s requires 0 <= s < TOTAL_SECTORS => Chunk(m, s))
  }

  lemma SectorReplaced(m: seq<byte>, n: seq<byte>, sector: nat, data: Sector)
    requires |m| == |n| == TOTAL_SECTORS * SECTOR_SIZE && sector < TOTAL_SECTORS
    requires n[SECTOR_SIZE * sector..SECTOR_SIZE * sector + SECTOR_SIZE] == data
    requires forall k | 0 <= k < |m| && !(SECTOR_SIZE * sector <= k < SECTOR_SIZE * sector + SECTOR_SIZE) :: n[k] == m[k]
    ensures Sectors(n) == Sectors(m)[sector := data]
  {
    forall s | 0 <= s < TOTAL_SECTORS ensures Sectors(n)[s] == Sectors(m)[sector := data][s] {
      var a := SECTOR_SIZE * s;
      if s != sector {
        assert s < sector ==> a + SECTOR_SIZE <= SECTOR_SIZE * sector;
        assert s > sector ==> a >= SECTOR_SIZE * sector + SECTOR_SIZE;
        assert n[a..a + SECTOR_SIZE] == m[a..a + SECTOR_SIZE];
      }
    }
  }

  /** The `k`-th sector of the range was read into its place in the buffer. */
  ghost predicate ReadInto(st: Store, h: Handle, start: nat, buf: seq<byte>, answers: seq<Answers>, k: nat)
    requires Formed(st)
  {
    && k < |answers| && SECTOR_SIZE * k + SECTOR_SIZE <= |buf|
    && S.Read(st, h, start + k, answers[k]) == Some(Chunk(buf, k))
  }

  lemma NextRead(st: Store, h: Handle, start: nat, before: seq<byte>, buf: seq<byte>, answers: seq<Answers>, a: Answers)
    requires Formed(st)
    requires var n := |answers|; var at := SECTOR_SIZE * n;
             && at + SECTOR_SIZE <= |before|
             && (forall k | 0 <= k < n :: ReadInto(st, h, start, before, answers, k))
             && S.Read(st, h, (start + n) % WORD_LIMIT, a).Some?
             && buf == before[..at] + S.Read(st, h, (start + n) % WORD_LIMIT, a).value + before[at + SECTOR_SIZE..]
             && (n == 0 ==> start < WORD_LIMIT) && (n > 0 ==> start + n <= TOTAL_SECTORS)
    ensures start + |answers| < TOTAL_SECTORS
    ensures forall k | 0 <= k <= |answers| :: ReadInto(st, h, start, buf, answers + [a], k)
  {
    var n := |answers|;
    var at := SECTOR_SIZE * n;
    assert (start + n) % WORD_LIMIT == start + n;
    forall k | 0 <= k <= n ensures ReadInto(st, h, start, buf, answers + [a], k) {
      if k < n {
        assert ReadInto(st, h, start, before, answers, k);
        assert SECTOR_SIZE * k + SECTOR_SIZE <= at;
        assert Chunk(buf, k) == Chunk(before, k);
      } else {
        assert Chunk(buf, n) == S.Read(st, h, start + n, a).value;
      }
    }
  }

  /** Every write of a range succeeded. */
  ghost predicate AllWrote(ws: seq<Write>, h: Handle) {
    forall k | 0 <= k < |ws| :: Writes(h, ws[k].sector, ws[k].answers)
  }

  lemma NoneWrote(h: Handle, start: nat, buf: seq<byte>)
    ensures Range([], h, start, buf) && AllWrote([], h)
  {
  }

  /** One more write of a range, successful or not. */
  lemma NextWrite(st: Store, ws: seq<Write>, h: Handle, start: nat, buf: seq<byte>, a: Answers) returns (next: seq<Write>)
    requires Formed(st) && Range(ws, h, start, buf) && AllWrote(ws, h)
    requires SECTOR_SIZE * |ws| + SECTOR_SIZE <= |buf|
    requires (|ws| == 0 ==> start < WORD_LIMIT) && (|ws| > 0 ==> start + |ws| <= TOTAL_SECTORS)
    ensures var sector := (start + |ws|) % WORD_LIMIT;
            && |next| == |ws| + 1 && next[|ws|].sector == sector && next[|ws|].answers == a
            && Range(next, h, start, buf)
            && After(st, next) == AfterWrite(After(st, ws), h, sector, Chunk(buf, |ws|), a)
            && (Writes(h, sector, a) ==> AllWrote(next, h) && start + |next| <= TOTAL_SECTORS)
  {
    var w := Write(h, (start + |ws|) % WORD_LIMIT, Chunk(buf, |ws|), a);
    next := ws + [w];
    RangeAppend(st, ws, w, h, start, buf);
    assert (start + |ws|) % WORD_LIMIT == start + |ws|;
  }

  lemma AfterNone(st: Store)
    requires Formed(st)
    ensures After(st, []) == st
  {
  }

  class SectorStore {
    const drive: Drive
    const mirror: array<byte>

    ghost predicate Valid()
      reads this, drive, mirror
    {
      mirror.Length == TOTAL_SECTORS * SECTOR_SIZE && Formed(State())
    }

    ghost function State(): Store
      requires mirror.Length == TOTAL_SECTORS * SECTOR_SIZE
      reads this, drive, mirror
    {
      Store(drive.disk, Sectors(mirror[..]))
    }

    constructor (d: Drive, m: array<byte>)
      requires m.Length == TOTAL_SECTORS * SECTOR_SIZE && |d.disk| >= VDISK_START + TOTAL_SECTORS
      ensures Valid() && drive == d && mirror == m
    {
      drive, mirror := d, m;
    }

    /** The commands up to the data phase of a read or a write. */
    method Begin(lba: uint32) returns (r: int, ghost a: Answers)
      requires lba < VDISK_START + TOTAL_SECTORS
      modifies drive`low, drive`mid, drive`high, drive`head
      ensures r == if a.ready && a.request then 0 else -1
      ensures r == 0 ==> drive.Selected() == lba
    {
      a := Answers(false, false, false, false);
      var ready, request;
      ghost var polls;
      ready, polls := drive.WaitReady();
      if ready != 0 { return -1, a; }
      drive.Select(lba);
      request, polls := drive.WaitRequest();
      a := Answers(true, request == 0, false, false);
      r := if request == 0 then 0 else -1;
    }

    /** Fills 512 bytes of the buffer, or fails and leaves the buffer alone. */
    method ReadSector(h: Handle, sector: uint32, buffer: array<byte>, at: nat) returns (r: int, ghost a: Answers)
      requires Valid() && buffer != mirror && at + SECTOR_SIZE <= buffer.Length
      modifies buffer, drive
      ensures Valid() && State() == old(State())
      ensures match S.Read(State(), h, sector, a)
              case Some(data) => r == 0 && buffer[..] == old(buffer[..at]) + data + old(buffer[at + SECTOR_SIZE..])
              case None => r == -1 && buffer[..] == old(buffer[..])
    {
      a := Answers(false, false, false, false);
      if sector >= TOTAL_SECTORS { return -1, a; }
      var begun;
      begun, a := Begin(Address(h, sector));
      if begun == 0 {
        drive.ReceiveSector(buffer, at);
        return 0, a;
      }
      if h.Hdd? { return -1, a; }
      CopyBytes(buffer, at, mirror, SECTOR_SIZE * sector);
      r := 0;
    }

    /** Stores 512 bytes of the buffer. */
    method WriteSector(h: Handle, sector: uint32, buffer: array<byte>, at: nat) returns (r: int, ghost a: Answers)
      requires Valid() && buffer != mirror && at + SECTOR_SIZE <= buffer.Length
      modifies drive, mirror
      ensures Valid()
      ensures r == if Writes(h, sector, a) then 0 else -1
      ensures State() == AfterWrite(old(State()), h, sector, buffer[at..at + SECTOR_SIZE], a)
    {
      a := Answers(false, false, false, false);
      if sector >= TOTAL_SECTORS { return -1, a; }
      r, a := Begin(Address(h, sector));
      if r == 0 {
        drive.SendSector(buffer, at);
        ghost var kept;
        r, kept := drive.FinishWrite();
        a := Answers(true, true, r == 0, kept);
      }
      if h.Vdisk? {
        ghost var m := mirror[..];
        CopyBytes(mirror, SECTOR_SIZE * sector, buffer, at);
        SectorReplaced(m, mirror[..], sector, buffer[at..at + SECTOR_SIZE]);
        r := 0;
      }
    }

    method WriteSectors(h: Handle, start: uint32, count: uint32, buffer: array<byte>) returns (r: int, ghost ws: seq<Write>)
      requires Valid() && buffer != mirror && SECTOR_SIZE * count <= buffer.Length
      modifies drive, mirror
      ensures Valid()
      ensures State() == After(old(State()), ws) && Range(ws, h, start, buffer[..])
      ensures r == 0 ==> |ws| == count && (count > 0 ==> start + count <= TOTAL_SECTORS)
      ensures r == 0 ==> AllWrote(ws, h)
      ensures r != 0 ==> r == -1 && 0 < |ws| <= count && !Writes(h, ws[|ws| - 1].sector, ws[|ws| - 1].answers)
    {
      ws := [];
      var i := 0;
      ghost var st, buf := State(), buffer[..];
      AfterNone(st);
      hide After, AfterWrite, Range, RangeAt, AllWrote, Writes;
      NoneWrote(h, start, buf);
      while i < count
        invariant i == |ws| <= count && Valid() && buffer[..] == buf
        invariant State() == After(st, ws) && Range(ws, h, start, buf) && AllWrote(ws, h)
        invariant i > 0 ==> start + i <= TOTAL_SECTORS
      {
        var sector := (start + i) % WORD_LIMIT;
        var result;
        ghost var a;
        result, a := WriteSector(h, sector, buffer, SECTOR_SIZE * i);
        assert buffer[SECTOR_SIZE * i..SECTOR_SIZE * i + SECTOR_SIZE] == Chunk(buf, i);
        ws := NextWrite(st, ws, h, start, buf, a);
        if result != 0 { return -1, ws; }
        i := i + 1;
      }
      r := 0;
    }

    method ReadSectors(h: Handle, start: uint32, count: uint32, buffer: array<byte>) returns (r: int, ghost answers: seq<Answers>)
      requires Valid() && buffer != mirror && SECTOR_SIZE * count <= buffer.Length
      modifies buffer, drive
      ensures Valid() && State() == old(State())
      ensures |answers| <= count
      ensures r == 0 ==> |answers| == count && (count > 0 ==> start + count <= TOTAL_SECTORS)
      ensures r == 0 ==> forall k | 0 <= k < count :: ReadInto(State(), h, start, buffer[..], answers, k)
      ensures r != 0 ==> r == -1 && answers != [] &&
                         S.Read(State(), h, (start + |answers| - 1) % WORD_LIMIT, answers[|answers| - 1]) == None
      ensures buffer[SECTOR_SIZE * count..] == old(buffer[SECTOR_SIZE * count..])
    {
      answers := [];
      var i := 0;
      ghost var st, was := State(), buffer[..];
      hide S.Read, ReadInto;
      while i < count
        invariant i == |answers| <= count && Valid() && State() == st
        invariant forall k | 0 <= k < i :: ReadInto(st, h, start, buffer[..], answers, k)
        invariant buffer[SECTOR_SIZE * i..] == was[SECTOR_SIZE * i..]
        invariant i > 0 ==> start + i <= TOTAL_SECTORS
      {
        var sector, at := (start + i) % WORD_LIMIT, SECTOR_SIZE * i;
        ghost var before := buffer[..];
        var result;
        ghost var a;
        result, a := ReadSector(h, sector, buffer, at);
        if result == 0 { NextRead(st, h, start, before, buffer[..], answers, a); }
        answers := answers + [a];
        if result != 0 { return -1, answers; }
        i := i + 1;
      }
      r := 0;
    }
  }

  /** memory_copy of one sector between two buffers. */
  method CopyBytes(dest: array<byte>, to: nat, src: array<byte>, from: nat)
    requires dest != src && to + SECTOR_SIZE <= dest.Length && from + SECTOR_SIZE <= src.Length
    modifies dest
    ensures dest[..] == old(dest[..to]) + src[from..from + SECTOR_SIZE] + old(dest[to + SECTOR_SIZE..])
  {
    ghost var was := dest[..];
    for i := 0 to SECTOR_SIZE
      invariant forall k | to <= k < to + i :: dest[k] == src[k - to + from]
      invariant forall k | 0 <= k < dest.Length && !(to <= k < to + i) :: dest[k] == was[k]
    {
      dest[to + i] := src[from + i];
    }
  }
}
