/**
 Sector storage: one ATA drive that may fail to answer at any step, behind two handles. The
 disk handle reports every failure; the virtual disk keeps a mirror in memory and never does.
 */
module StorageSpec {
  import opened Bytes
  import opened Wrappers

  const SECTOR_SIZE := 512
  const TOTAL_SECTORS := 2048
  const VDISK_START := 100              // disk sector of the virtual disk's sector 0

  type Sector = s: seq<byte> | |s| == SECTOR_SIZE witness seq(SECTOR_SIZE, _ => 0)

  datatype Handle = Hdd | Vdisk

  datatype Store = Store(disk: seq<Sector>, mirror: seq<Sector>)

  predicate Formed(st: Store) {
    |st.disk| >= VDISK_START + TOTAL_SECTORS && |st.mirror| == TOTAL_SECTORS
  }

  /**
   What the drive does in one call: whether it gets ready, whether it then requests data,
   whether it gets ready again after a write, and whether it keeps what was written if not.
   */
  datatype Answers = Answers(ready: bool, request: bool, done: bool, kept: bool)

  // ---------------------------------------------------------------- one call

  function Address(h: Handle, sector: nat): nat {
    if h.Hdd? then sector else sector + VDISK_START
  }

  /** Whether the data ends up on the disk. */
  predicate Reaches(a: Answers) {
    a.ready && a.request && (a.done || a.kept)
  }

  predicate Writes(h: Handle, sector: nat, a: Answers) {
    sector < TOTAL_SECTORS && (h.Vdisk? || (a.ready && a.request && a.done))
  }

  function AfterWrite(st: Store, h: Handle, sector: nat, data: Sector, a: Answers): (r: Store)
    requires Formed(st)
    ensures Formed(r) && |r.disk| == |st.disk|
  {
    if sector >= TOTAL_SECTORS then st
    else Store(if Reaches(a) then st.disk[Address(h, sector) := data] else st.disk,
               if h.Vdisk? then st.mirror[sector := data] else st.mirror)
  }

  function Read(st: Store, h: Handle, sector: nat, a: Answers): Option<Sector>
    requires Formed(st)
  {
    if sector >= TOTAL_SECTORS then None
    else if a.ready && a.request then Some(st.disk[Address(h, sector)])
    else if h.Vdisk? then Some(st.mirror[sector])
    else None
  }

  /**
   One call, in the drive's sectors: the virtual disk lies from sector 100 on, a sector from 2048 on is
   refused, only the sector named is written, and the mirror changes for the virtual disk alone.
   */
  lemma CallsAre(st: Store, h: Handle, sector: nat, data: Sector, a: Answers)
    requires Formed(st)
    ensures sector >= 2048 ==> Read(st, h, sector, a) == None && AfterWrite(st, h, sector, data, a) == st && !Writes(h, sector, a)
    ensures sector < 2048 ==>
              var at, r := if h == Hdd then sector else 100 + sector, AfterWrite(st, h, sector, data, a);
              && Read(st, h, sector, a) ==
                   (if a.ready && a.request then Some(st.disk[at]) else if h == Vdisk then Some(st.mirror[sector]) else None)
              && r.disk == (if a.ready && a.request && (a.done || a.kept) then st.disk[at := data] else st.disk)
              && r.mirror == (if h == Vdisk then st.mirror[sector := data] else st.mirror)
              && (Writes(h, sector, a) <==> h == Vdisk || (a.ready && a.request && a.done))
  {
  }

  /** The virtual disk returns this data for the sector whatever the drive does. */
  ghost predicate AlwaysReads(st: Store, sector: nat, data: Sector)
    requires Formed(st)
  {
    forall a: Answers :: Read(st, Vdisk, sector, a) == Some(data)
  }

  // ---------------------------------------------------------------- runs

  datatype Write = Write(handle: Handle, sector: nat, data: Sector, answers: Answers)

  function After(st: Store, ws: seq<Write>): (r: Store)
    requires Formed(st)
    ensures Formed(r) && |r.disk| == |st.disk|
    decreases |ws|
  {
    if ws == [] then st
    else
      var n := |ws| - 1;
      AfterWrite(After(st, ws[..n]), ws[n].handle, ws[n].sector, ws[n].data, ws[n].answers)
  }

  /** The last data handed to the virtual disk for a sector. */
  function LastWrite(ws: seq<Write>, sector: nat): Option<Sector>
    decreases |ws|
  {
    if ws == [] then None
    else
      var w := ws[|ws| - 1];
      if w.handle.Vdisk? && w.sector == sector then Some(w.data) else LastWrite(ws[..|ws| - 1], sector)
  }

  /** The last data that reached a sector of the disk, through either handle. */
  function LastReached(ws: seq<Write>, address: nat): Option<Sector>
    decreases |ws|
  {
    if ws == [] then None
    else
      var w := ws[|ws| - 1];
      if w.sector < TOTAL_SECTORS && Reaches(w.answers) && Address(w.handle, w.sector) == address then Some(w.data)
      else LastReached(ws[..|ws| - 1], address)
  }

  function Or(o: Option<Sector>, default: Sector): Sector {
    if o.Some? then o.value else default
  }

  /** The mirror always holds the last write, whatever the drive does. */
  lemma {:induction false} MirrorHoldsLastWrite(st: Store, ws: seq<Write>, sector: nat)
    requires Formed(st) && sector < TOTAL_SECTORS
    ensures After(st, ws).mirror[sector] == Or(LastWrite(ws, sector), st.mirror[sector])
    decreases |ws|
  {
    if ws != [] {
      MirrorHoldsLastWrite(st, ws[..|ws| - 1], sector);
    }
  }

  lemma {:induction false} DiskHoldsLastReached(st: Store, ws: seq<Write>, address: nat)
    requires Formed(st) && address < |st.disk|
    ensures After(st, ws).disk[address] == Or(LastReached(ws, address), st.disk[address])
    decreases |ws|
  {
    if ws != [] {
      DiskHoldsLastReached(st, ws[..|ws| - 1], address);
    }
  }

  /**
   After any run of writes through both handles, a sector written through the virtual disk
   reads back as its last write under every behaviour of the drive exactly when that is also
   what last reached its place on the disk.
   */
  lemma ReadsLastWriteIff(st: Store, ws: seq<Write>, sector: nat)
    requires Formed(st) && sector < TOTAL_SECTORS
    ensures var last, address := Or(LastWrite(ws, sector), st.mirror[sector]), sector + VDISK_START;
            AlwaysReads(After(st, ws), sector, last) <==> Or(LastReached(ws, address), st.disk[address]) == last
  {
    MirrorHoldsLastWrite(st, ws, sector);
    DiskHoldsLastReached(st, ws, sector + VDISK_START);
    var end := After(st, ws);
    assert Read(end, Vdisk, sector, Answers(true, true, true, true)) == Some(end.disk[sector + VDISK_START]);
  }

  /** What keeps disk and mirror together: nothing else wrote the place, and every write of the sector reached it. */
  ghost predicate Steady(ws: seq<Write>, sector: nat) {
    forall w | w in ws :: SteadyAt(w, sector)
  }

  predicate SteadyAt(w: Write, sector: nat) {
    if w.handle.Vdisk? && w.sector == sector then Reaches(w.answers)
    else Address(w.handle, w.sector) != sector + VDISK_START
  }

  lemma {:induction false} SteadyAgrees(st: Store, ws: seq<Write>, sector: nat)
    requires Formed(st) && sector < TOTAL_SECTORS && Steady(ws, sector)
    ensures LastReached(ws, sector + VDISK_START) == LastWrite(ws, sector)
    decreases |ws|
  {
    if ws != [] {
      var w := ws[|ws| - 1];
      assert w in ws && SteadyAt(w, sector);
      SteadyAgrees(st, ws[..|ws| - 1], sector);
    }
  }

  /** With a drive that takes every write of the sector, each later read returns the last one, however the drive then behaves. */
  lemma SteadyReads(st: Store, ws: seq<Write>, sector: nat, a: Answers)
    requires Formed(st) && sector < TOTAL_SECTORS
    requires Steady(ws, sector) && LastWrite(ws, sector).Some?
    ensures Read(After(st, ws), Vdisk, sector, a) == LastWrite(ws, sector)
  {
    SteadyAgrees(st, ws, sector);
    ReadsLastWriteIff(st, ws, sector);
  }

  /** With a drive that does not answer the read, the mirror does, whatever happened to the writes. */
  lemma SilentReads(st: Store, ws: seq<Write>, sector: nat, a: Answers)
    requires Formed(st) && sector < TOTAL_SECTORS
    requires !(a.ready && a.request) && LastWrite(ws, sector).Some?
    ensures Read(After(st, ws), Vdisk, sector, a) == LastWrite(ws, sector)
  {
    MirrorHoldsLastWrite(st, ws, sector);
  }

  /** A write that only reached the mirror is hidden from a read that the disk answers. */
  lemma StaleRead(st: Store, sector: nat, before: Sector, later: Sector, a: Answers)
    requires Formed(st) && sector < TOTAL_SECTORS && before != later && !Reaches(a)
    ensures var good := Answers(true, true, true, true);
            var ws := [Write(Vdisk, sector, before, good), Write(Vdisk, sector, later, a)];
            Read(After(st, ws), Vdisk, sector, good) == Some(before) && LastWrite(ws, sector) == Some(later)
  {
    var ws := [Write(Vdisk, sector, before, Answers(true, true, true, true)), Write(Vdisk, sector, later, a)];
    assert ws[..1] == [ws[0]] && ws[..1][..0] == [];
  }

  // ---------------------------------------------------------------- ranges of sectors

  function Chunk(buf: seq<byte>, k: nat): Sector
    requires SECTOR_SIZE * k + SECTOR_SIZE <= |buf|
  {
    buf[SECTOR_SIZE * k..SECTOR_SIZE * k + SECTOR_SIZE]
  }

  /** Write number `k` of a range puts chunk `k` of the buffer into the `k`-th sector; numbers are 32 bits wide. */
  predicate RangeAt(w: Write, h: Handle, start: nat, buf: seq<byte>, k: nat) {
    && SECTOR_SIZE * k + SECTOR_SIZE <= |buf|
    && w.handle == h && w.sector == (start + k) % WORD_LIMIT && w.data == Chunk(buf, k)
  }

  ghost predicate Range(ws: seq<Write>, h: Handle, start: nat, buf: seq<byte>) {
    forall k | 0 <= k < |ws| :: RangeAt(ws[k], h, start, buf, k)
  }

  lemma RangeAppend(st: Store, ws: seq<Write>, w: Write, h: Handle, start: nat, buf: seq<byte>)
    requires Formed(st) && Range(ws, h, start, buf) && RangeAt(w, h, start, buf, |ws|)
    ensures Range(ws + [w], h, start, buf)
    ensures After(st, ws + [w]) == AfterWrite(After(st, ws), h, w.sector, w.data, w.answers)
  {
    assert (ws + [w])[..|ws|] == ws;
  }

  lemma {:induction false} RangeLast(ws: seq<Write>, start: nat, buf: seq<byte>, k: nat, n: nat)
    requires Range(ws, Vdisk, start, buf) && start + |ws| <= TOTAL_SECTORS && k < |ws| && n <= |ws|
    ensures LastWrite(ws[..n], start + k) == if k < n then Some(ws[k].data) else None
    ensures LastReached(ws[..n], start + k + VDISK_START) ==
            if k < n && Reaches(ws[k].answers) then Some(ws[k].data) else None
  {
    if n > 0 {
      RangeLast(ws, start, buf, k, n - 1);
      assert RangeAt(ws[n - 1], Vdisk, start, buf, n - 1);
      assert ws[n - 1].sector == start + n - 1;
      hide Range, RangeAt, Chunk, Reaches;
      assert ws[..n][..n - 1] == ws[..n - 1] && ws[..n][n - 1] == ws[n - 1];
    }
  }

  /** A sector of a written range reads back under every behaviour of the drive exactly when its write reached the disk, or was there already. */
  lemma RangeReadsBackIff(st: Store, ws: seq<Write>, start: nat, buf: seq<byte>, k: nat)
    requires Formed(st) && Range(ws, Vdisk, start, buf) && start + |ws| <= TOTAL_SECTORS && k < |ws|
    ensures SECTOR_SIZE * k + SECTOR_SIZE <= |buf|
    ensures AlwaysReads(After(st, ws), start + k, Chunk(buf, k)) <==>
            Reaches(ws[k].answers) || st.disk[start + k + VDISK_START] == Chunk(buf, k)
  {
    RangeLast(ws, start, buf, k, |ws|);
    assert ws[..|ws|] == ws && RangeAt(ws[k], Vdisk, start, buf, k);
    hide Range, After, LastWrite, LastReached, AlwaysReads, Chunk;
    ReadsLastWriteIff(st, ws, start + k);
  }
}
