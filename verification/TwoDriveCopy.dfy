/** The copy loop of diskcopy/tdrvcpy.c, lines 74 to 224, with the serial number of diskcopy/serialnm.c. */
module TwoDriveCopy {
  import opened Bytes
  import opened Commons
  import opened Fat
  import opened FastCopy
  import RecordBc

  /** Sectors in the copy buffer of 16384 bytes. */
  const PER_BLOCK := 32

  type Sectors = seq<seq<byte>>

  /** The four bytes of the serial number in the boot sector of a small FAT. */
  function WithSerial(sector: seq<byte>, serial: seq<byte>): (r: seq<byte>)
    requires |sector| == SECTOR && |serial| == 4
    ensures |r| == SECTOR
  {
    sector[39 := serial[0]][40 := serial[1]][41 := serial[2]][42 := serial[3]]
  }

  lemma SameButSerial(sector: seq<byte>, serial: seq<byte>, other: seq<byte>)
    requires |sector| == SECTOR && |serial| == |other| == 4
    ensures WithSerial(WithSerial(sector, serial), other) == WithSerial(sector, other)
  {
  }

  datatype Serial = Keep | Update(digits: seq<byte>)

  predicate GoodSerial(serial: Serial) {
    serial.Update? ==> |serial.digits| == 4
  }

  /** What the target is to receive: the source, with the new serial number in its boot sector if wanted. */
  ghost function Wanted(source: Sectors, serial: Serial): (r: Sectors)
    requires 0 < |source| && Formatted(source) && GoodSerial(serial)
    ensures |r| == |source| && Formatted(r)
  {
    if serial.Update? then source[0 := WithSerial(source[0], serial.digits)] else source
  }

  /** Where the block that holds sector `s` begins. */
  function BlockOf(s: nat): nat {
    s / PER_BLOCK * PER_BLOCK
  }

  /** Below `end` the blocks that are read have been replaced; everything else is as it was. */
  ghost predicate CopiedTo(v: View, wanted: Sectors, was: Sectors, now: Sectors, end: nat)
    requires end <= |wanted| && end <= |was|
  {
    && |now| == |was|
    && (forall s :: 0 <= s < |now| ==>
          (now[s] == if s < end && Taken(v, BlockOf(s), PER_BLOCK) then wanted[s] else was[s]))
  }

  /** The copy looks at `v`; `end` is where its loop stops. */
  ghost predicate Ready(c: FastCopier, v: View, source: Drive, dest: Drive, end: nat)
    reads c, source, dest
  {
    && source != dest && Formatted(source.sectors) && Formatted(dest.sectors)
    && 0 < end <= |source.sectors| && end <= |dest.sectors| && end % PER_BLOCK == 0
    && c.Viewed() == v && Readable(v, 0, end)
  }

  method UpdateSerial(cpybuf: Sectors, digits: seq<byte>) returns (r: Sectors)
    requires 0 < |cpybuf| && |cpybuf[0]| == SECTOR && |digits| == 4
    ensures r == cpybuf[0 := WithSerial(cpybuf[0], digits)]
  {
    r := cpybuf[0 := WithSerial(cpybuf[0], digits)];
  }

  method WriteBlock(dest: Drive, sector: nat, cpybuf: Sectors)
    requires sector + |cpybuf| <= |dest.sectors|
    modifies dest
    ensures dest.sectors == old(dest.sectors)[..sector] + cpybuf + old(dest.sectors)[sector + |cpybuf|..]
  {
    dest.sectors := dest.sectors[..sector] + cpybuf + dest.sectors[sector + |cpybuf|..];
  }

  lemma BlockDone(v: View, wanted: Sectors, was: Sectors, before: Sectors, now: Sectors, sector: nat, read: bool)
    requires sector % PER_BLOCK == 0 && sector + PER_BLOCK <= |wanted| && sector + PER_BLOCK <= |was|
    requires CopiedTo(v, wanted, was, before, sector) && (read <==> Taken(v, sector, PER_BLOCK))
    requires now == if read then before[..sector] + wanted[sector..sector + PER_BLOCK] + before[sector + PER_BLOCK..]
                    else before
    ensures CopiedTo(v, wanted, was, now, sector + PER_BLOCK)
  {
    forall s | 0 <= s < |now|
      ensures now[s] == if s < sector + PER_BLOCK && Taken(v, BlockOf(s), PER_BLOCK) then wanted[s] else was[s]
    {
      if sector <= s < sector + PER_BLOCK { assert BlockOf(s) == sector; }
    }
  }

  method CopyBlock(c: FastCopier, source: Drive, dest: Drive, sector: nat, serial: Serial, ghost v: View,
                   ghost end: nat, ghost was: Sectors)
    requires Ready(c, v, source, dest, end) && GoodSerial(serial) && end <= |was|
    requires sector % PER_BLOCK == 0 && sector + PER_BLOCK <= end
    requires CopiedTo(v, Wanted(source.sectors, serial), was, dest.sectors, sector)
    modifies c`start, dest
    ensures Ready(c, v, source, dest, end) && c.start == if v.fast then v.start else old(c.start)
    ensures CopiedTo(v, Wanted(source.sectors, serial), was, dest.sectors, sector + PER_BLOCK)
  {
    ghost var wanted, before := Wanted(source.sectors, serial), dest.sectors;
    var required := c.IsDiskReadRequired(sector, PER_BLOCK);
    if required {
      var cpybuf := source.sectors[sector..sector + PER_BLOCK];
      if sector == 0 && serial.Update? {
        cpybuf := UpdateSerial(cpybuf, serial.digits);
      }
      assert cpybuf == wanted[sector..sector + PER_BLOCK];
      WriteBlock(dest, sector, cpybuf);
    }
    BlockDone(v, wanted, was, before, dest.sectors, sector, required);
  }

  /** The pass that writes: lines 158 to 223 with the first action. */
  method CopyPass(c: FastCopier, source: Drive, dest: Drive, endsector: nat, serial: Serial, ghost v: View,
                  ghost end: nat)
    requires Ready(c, v, source, dest, end) && GoodSerial(serial) && 0 < endsector <= end < endsector + PER_BLOCK
    modifies c`start, dest
    ensures Ready(c, v, source, dest, end) && c.start == if v.fast then v.start else old(c.start)
    ensures CopiedTo(v, Wanted(source.sectors, serial), old(dest.sectors), dest.sectors, end)
  {
    ghost var was := dest.sectors;
    var sector := 0;
    while sector < endsector
      invariant 0 <= sector <= end && sector % PER_BLOCK == 0 && Ready(c, v, source, dest, end)
      invariant c.start == if v.fast && 0 < sector then v.start else old(c.start)
      invariant CopiedTo(v, Wanted(source.sectors, serial), was, dest.sectors, sector)
    {
      CopyBlock(c, source, dest, sector, serial, v, end, was);
      sector := sector + PER_BLOCK;
    }
    assert sector == end;
  }

  function WithoutSerial(sector: seq<byte>): (r: seq<byte>)
    requires |sector| == SECTOR
  {
    WithSerial(sector, [0, 0, 0, 0])
  }

  function Cleared(content: seq<byte>, s: nat, serial: Serial): seq<byte>
    requires |content| == SECTOR
  {
    if s == 0 && serial.Update? then WithoutSerial(content) else content
  }

  /** The block as the verification compares it. */
  ghost predicate Compared(buf: Sectors, d: Sectors, sector: nat, serial: Serial)
    requires Formatted(d) && sector + PER_BLOCK <= |d|
  {
    && |buf| == PER_BLOCK
    && (forall i :: 0 <= i < PER_BLOCK ==> buf[i] == Cleared(d[sector + i], sector + i, serial))
  }

  method ForComparison(d: Sectors, sector: nat, serial: Serial) returns (buf: Sectors)
    requires Formatted(d) && sector + PER_BLOCK <= |d|
    ensures Compared(buf, d, sector, serial)
  {
    buf := d[sector..sector + PER_BLOCK];
    if sector == 0 && serial.Update? {
      buf := buf[0 := WithoutSerial(buf[0])];
    }
  }

  /** A block that was read has been replaced as a whole. */
  lemma BlockCopied(v: View, wanted: Sectors, was: Sectors, now: Sectors, end: nat, sector: nat)
    requires end <= |wanted| && end <= |was| && sector % PER_BLOCK == 0 && sector + PER_BLOCK <= end
    requires CopiedTo(v, wanted, was, now, end) && Taken(v, sector, PER_BLOCK)
    ensures forall s :: sector <= s < sector + PER_BLOCK ==> now[s] == wanted[s]
  {
    forall s | sector <= s < sector + PER_BLOCK ensures now[s] == wanted[s] {
      assert BlockOf(s) == sector;
    }
  }

  lemma SameCleared(source: Sectors, s: nat, serial: Serial)
    requires s < |source| && Formatted(source) && GoodSerial(serial)
    ensures Cleared(Wanted(source, serial)[s], s, serial) == Cleared(source[s], s, serial)
  {
    if s == 0 && serial.Update? { SameButSerial(source[0], serial.digits, [0, 0, 0, 0]); }
  }

  lemma SameBlock(source: Sectors, dest: Sectors, sector: nat, serial: Serial, a: Sectors, b: Sectors)
    requires Formatted(source) && Formatted(dest) && GoodSerial(serial) && 0 < |source|
    requires sector + PER_BLOCK <= |source| && sector + PER_BLOCK <= |dest|
    requires forall s :: sector <= s < sector + PER_BLOCK ==> dest[s] == Wanted(source, serial)[s]
    requires Compared(a, source, sector, serial) && Compared(b, dest, sector, serial)
    ensures a == b
  {
    forall i | 0 <= i < PER_BLOCK ensures a[i] == b[i] {
      SameCleared(source, sector + i, serial);
    }
  }

  method VerifyBlock(c: FastCopier, source: Drive, dest: Drive, sector: nat, serial: Serial, ghost v: View,
                     ghost end: nat, ghost was: Sectors) returns (same: bool)
    requires Ready(c, v, source, dest, end) && GoodSerial(serial) && end <= |was|
    requires sector % PER_BLOCK == 0 && sector + PER_BLOCK <= end
    requires CopiedTo(v, Wanted(source.sectors, serial), was, dest.sectors, end)
    modifies c`start
    ensures Ready(c, v, source, dest, end) && c.start == (if v.fast then v.start else old(c.start)) && same
  {
    same := true;
    var required := c.IsDiskReadRequired(sector, PER_BLOCK);
    if required {
      var cpybuf := ForComparison(source.sectors, sector, serial);
      var cmpbuf := ForComparison(dest.sectors, sector, serial);
      BlockCopied(v, Wanted(source.sectors, serial), was, dest.sectors, end, sector);
      SameBlock(source.sectors, dest.sectors, sector, serial, cpybuf, cmpbuf);
      same := cpybuf == cmpbuf;
    }
  }

  /** The pass that compares: it lists the blocks that differ, and after a copy finds none. */
  method VerifyPass(c: FastCopier, source: Drive, dest: Drive, endsector: nat, serial: Serial, ghost v: View,
                    ghost end: nat, ghost was: Sectors) returns (mismatches: seq<int>)
    requires Ready(c, v, source, dest, end) && GoodSerial(serial) && end <= |was|
    requires 0 < endsector <= end < endsector + PER_BLOCK
    requires CopiedTo(v, Wanted(source.sectors, serial), was, dest.sectors, end)
    modifies c`start
    ensures Ready(c, v, source, dest, end) && c.start == if v.fast then v.start else old(c.start)
    ensures mismatches == []
  {
    mismatches := [];
    var sector := 0;
    while sector < endsector
      invariant 0 <= sector <= end && sector % PER_BLOCK == 0 && Ready(c, v, source, dest, end)
      invariant c.start == if v.fast && 0 < sector then v.start else old(c.start)
      invariant mismatches == []
    {
      var same := VerifyBlock(c, source, dest, sector, serial, v, end, was);
      if !same {
        mismatches := mismatches + [sector];
      }
      sector := sector + PER_BLOCK;
    }
  }

  // ----- a whole copy -----

  function Word16(sector: seq<byte>, i: nat): nat
    requires i + 1 < |sector|
  {
    (sector[i] as int) + 256 * (sector[i + 1] as int)
  }

  /** The fields of a boot sector. */
  function BootOf(sector: seq<byte>): Boot
    requires |sector| == SECTOR
  {
    Boot(Word16(sector, 11), sector[13] as int, Word16(sector, 14), sector[16] as int, Word16(sector, 17),
         Word16(sector, 19), Word16(sector, 22))
  }

  /** The first FAT, sector by sector. */
  function FatOf(d: Sectors, first: nat, n: nat): (r: seq<byte>)
    requires first + n <= |d|
  {
    if n == 0 then [] else FatOf(d, first, n - 1) + d[first + n - 1]
  }

  /** Nothing is kept when a sector cannot be read, which is when it lies behind the end of the disk. */
  method ReadFatInfo(c: FastCopier, source: Drive) returns (ok: bool)
    modifies c`fatInfo
    ensures ok <==> c.bsect.reserved + c.bsect.perFat <= |source.sectors| || c.bsect.perFat == 0
    ensures ok && 0 < c.bsect.perFat ==> c.fatInfo == FatOf(source.sectors, c.bsect.reserved, c.bsect.perFat)
    ensures !ok || c.bsect.perFat == 0 ==> c.fatInfo == []
  {
    c.fatInfo := [];
    var i := 0;
    while i < c.bsect.perFat
      invariant 0 <= i <= c.bsect.perFat && (0 < i ==> c.bsect.reserved + i <= |source.sectors|)
      invariant c.fatInfo == if i == 0 then [] else FatOf(source.sectors, c.bsect.reserved, i)
    {
      if |source.sectors| <= c.bsect.reserved + i {
        c.fatInfo := [];
        return false;
      }
      c.fatInfo := c.fatInfo + source.sectors[c.bsect.reserved + i];
      i := i + 1;
    }
    return true;
  }

  /** Where the copy is to end: the volume cut down to a multiple of the cluster size. */
  function EndSector(b: Boot): nat
    requires 0 < b.perCluster
  {
    b.sectors / b.perCluster * b.perCluster
  }

  /** Where the loop ends, which copies whole blocks. */
  function LoopEnd(b: Boot): (end: nat)
    requires 0 < b.perCluster
    ensures end % PER_BLOCK == 0 && EndSector(b) <= end < EndSector(b) + PER_BLOCK
  {
    (EndSector(b) + PER_BLOCK - 1) / PER_BLOCK * PER_BLOCK
  }

  /**
   * Two diskettes of the same capacity, which is what the program asks for, that can be read and written as far as
   * the loop goes. Otherwise their boot parameters may differ.
   */
  ghost predicate Copyable(source: Sectors, dest: Sectors) {
    && 0 < |source| && 0 < |dest| && Formatted(source) && Formatted(dest)
    && var b, t := BootOf(source[0]), BootOf(dest[0]);
       && 0 < b.perCluster == t.perCluster && b.sectors / b.perCluster == t.sectors / t.perCluster
       && 0 < EndSector(b) && LoopEnd(b) <= |source| && LoopEnd(b) <= |dest|
  }

  /** The FAT the copy goes by is read from the source, at the place the boot record `b` says. */
  function FatBy(source: Sectors, b: Boot): Option<seq<byte>> {
    if b.perFat == 0 then Some([])
    else if b.reserved + b.perFat <= |source| then Some(FatOf(source, b.reserved, b.perFat))
    else None
  }

  /**
   * What the copy of a pair looks at: the boot record of the target, which is read last, a start of data that may
   * have been worked out before, and the FAT of the source. Without the FAT everything is copied.
   */
  ghost function PairView(source: Sectors, dest: Sectors, start: nat, fast: bool, fatInfo: seq<byte>): View
    requires 0 < |dest| && Formatted(dest)
  {
    var b := BootOf(dest[0]);
    var data := if start != 0 then start else DataStart(b);
    if !fast then View(false, b, data, fatInfo)
    else
      match FatBy(source, b)
      case None => View(false, b, data, [])
      case Some(fat) => View(true, b, data, fat)
  }

  /** Lines 76 to 142 */
  method Begin(c: FastCopier, source: Drive, dest: Drive, fast: bool, ghost v: View) returns (endsector: nat)
    requires Copyable(source.sectors, dest.sectors)
    requires v == PairView(source.sectors, dest.sectors, c.start, fast, c.fatInfo)
    modifies c
    ensures c.Viewed() == v && c.start == old(c.start) && endsector == EndSector(BootOf(source.sectors[0]))
  {
    c.bsect := BootOf(source.sectors[0]);
    endsector := EndSector(c.bsect);
    c.bsect := BootOf(dest.sectors[0]);
    c.performFastCopy := fast;
    if fast {
      var ok := ReadFatInfo(c, source);
      if !ok {
        c.performFastCopy := false;
      }
    }
  }

  lemma FullIsCopied(v: View, wanted: Sectors, was: Sectors, now: Sectors, end: nat)
    requires end <= |wanted| && end <= |was| && CopiedTo(v, wanted, was, now, end)
    ensures !v.fast ==> forall s :: 0 <= s < end ==> now[s] == wanted[s]
  {
  }

  /** One pair of diskettes, also a later one. The second pass finds no difference. */
  method Copy(c: FastCopier, source: Drive, dest: Drive, fast: bool, verify: bool, serial: Serial, ghost v: View)
    returns (mismatches: seq<int>)
    requires source != dest && Copyable(source.sectors, dest.sectors) && GoodSerial(serial)
    requires v == PairView(source.sectors, dest.sectors, c.start, fast, c.fatInfo)
    requires Readable(v, 0, LoopEnd(BootOf(source.sectors[0])))
    modifies c, dest
    ensures c.start == if v.fast then v.start else old(c.start)
    ensures CopiedTo(v, Wanted(source.sectors, serial), old(dest.sectors), dest.sectors,
                     LoopEnd(BootOf(source.sectors[0])))
    ensures !v.fast ==> forall s :: 0 <= s < LoopEnd(BootOf(source.sectors[0])) ==>
              dest.sectors[s] == Wanted(source.sectors, serial)[s]
    ensures mismatches == []
  {
    ghost var was, end := dest.sectors, LoopEnd(BootOf(source.sectors[0]));
    var endsector := Begin(c, source, dest, fast, v);
    CopyPass(c, source, dest, endsector, serial, v, end);
    FullIsCopied(v, Wanted(source.sectors, serial), was, dest.sectors, end);
    mismatches := [];
    if verify {
      mismatches := VerifyPass(c, source, dest, endsector, serial, v, end, was);
    }
  }

  // ----- what is copied -----

  lemma {:induction false} FatLength(d: Sectors, first: nat, n: nat)
    requires Formatted(d) && first + n <= |d|
    ensures |FatOf(d, first, n)| == SECTOR * n
  {
    if n > 0 { FatLength(d, first, n - 1); }
  }

  /** The sectors of a disk, one behind the other. */
  function Flat(d: Sectors): seq<byte> {
    FatOf(d, 0, |d|)
  }

  lemma {:induction false} FatBehind(d: Sectors, first: nat, n: nat)
    requires first + n <= |d|
    ensures FatOf(d, 0, first + n) == FatOf(d, 0, first) + FatOf(d, first, n)
  {
    if n > 0 { FatBehind(d, first, n - 1); }
  }

  lemma Middle(a: seq<byte>, b: seq<byte>, c: seq<byte>)
    ensures (a + b + c)[|a|..|a| + |b|] == b
  {
  }

  lemma PartOfDisk(d: Sectors, first: nat, n: nat)
    requires Formatted(d) && first + n <= |d|
    ensures |Flat(d)| == SECTOR * |d|
    ensures FatOf(d, first, n) == Flat(d)[SECTOR * first..SECTOR * first + SECTOR * n]
  {
    FatLength(d, 0, |d|);
    FatLength(d, 0, first);
    FatLength(d, first, n);
    FatBehind(d, first, n);
    FatBehind(d, first + n, |d| - first - n);
    Middle(FatOf(d, 0, first), FatOf(d, first, n), FatOf(d, first + n, |d| - first - n));
  }

  /** The source's own FAT, and the one that is read by the boot record `t` of the target. */
  function PlacesOf(b: Boot, t: Boot): Places {
    Places(SECTOR * b.reserved, SECTOR * b.perFat, SECTOR * t.reserved, SECTOR * t.perFat)
  }

  /** The test on a block: `b` and `t` are the boot records of source and target, `start` the start of data used. */
  predicate SafeBlock(b: Boot, t: Boot, start: nat, first: nat)
    requires 0 < b.perCluster
  {
    Safe(b.perCluster, DataStart(b), start, Shift(PlacesOf(b, t)), first, PER_BLOCK)
  }

  lemma UsedIsTaken(source: Sectors, b: Boot, t: Boot, start: nat, first: nat, s: nat)
    requires Formatted(source) && 0 < b.perCluster && FatBy(source, b).Some? && FatBy(source, t).Some?
    requires first <= s < first + PER_BLOCK && InUse(b.perCluster, DataStart(b), FatBy(source, b).value, s)
    requires forall q :: first <= q < first + PER_BLOCK && start <= q ==>
               InFat(b.perCluster, start, FatBy(source, t).value, q)
    requires SafeBlock(b, t, start, first)
    ensures Required(b.perCluster, start, FatBy(source, t).value, first, PER_BLOCK)
  {
    var p, disk := PlacesOf(b, t), Flat(source);
    if 0 < b.perFat && 0 < t.perFat {
      PartOfDisk(source, b.reserved, b.perFat);
      PartOfDisk(source, t.reserved, t.perFat);
      SafeIsRead(b.perCluster, DataStart(b), start, p, disk, first, PER_BLOCK);
    } else {
      assert !InFat(b.perCluster, start, [], first);
    }
  }

  /**
   * After a fast copy every sector in use on the source, by its own boot record and FAT, has been copied, if its
   * block is safe.
   */
  lemma InUseIsCopied(source: Sectors, was: Sectors, now: Sectors, v: View, start: nat, fast: bool, fatInfo: seq<byte>,
                      serial: Serial, s: nat)
    requires Copyable(source, was) && GoodSerial(serial) && v == PairView(source, was, start, fast, fatInfo)
    requires Readable(v, 0, LoopEnd(BootOf(source[0])))
    requires CopiedTo(v, Wanted(source, serial), was, now, LoopEnd(BootOf(source[0])))
    requires FatBy(source, BootOf(source[0])).Some? && s < LoopEnd(BootOf(source[0]))
    requires var b := BootOf(source[0]); InUse(b.perCluster, DataStart(b), FatBy(source, b).value, s)
    requires SafeBlock(BootOf(source[0]), BootOf(was[0]), v.start, BlockOf(s))
    ensures now[s] == Wanted(source, serial)[s]
  {
    var b, t := BootOf(source[0]), BootOf(was[0]);
    if v.fast {
      UsedIsTaken(source, b, t, v.start, BlockOf(s), s);
    }
  }

  ghost predicate AllSafe(b: Boot, t: Boot, start: nat)
    requires 0 < b.perCluster
  {
    forall first :: 0 <= first < LoopEnd(b) && first % PER_BLOCK == 0 ==> SafeBlock(b, t, start, first)
  }

  ghost predicate BlockRead(b: Boot, t: Boot, start: nat, disk: seq<byte>, first: nat)
    requires OnDisk(PlacesOf(b, t), |disk|)
  {
    ReadWhenUsed(b.perCluster, DataStart(b), start, OwnFat(PlacesOf(b, t), disk), SeenFat(PlacesOf(b, t), disk),
                 first, PER_BLOCK)
  }

  ghost predicate AllRead(b: Boot, t: Boot, start: nat, disk: seq<byte>)
    requires 0 < b.perCluster && OnDisk(PlacesOf(b, t), |disk|)
  {
    forall first :: 0 <= first < LoopEnd(b) && first % PER_BLOCK == 0 ==> BlockRead(b, t, start, disk, first)
  }

  /** The FATs have an entry for every cluster that is asked for. */
  ghost predicate Entries(b: Boot, t: Boot, start: nat)
    requires 0 < b.perCluster
  {
    && (forall s :: DataStart(b) <= s < LoopEnd(b) ==>
          ClusterAt(b.perCluster, DataStart(b), s) * 3 / 2 + 1 < SECTOR * b.perFat)
    && (forall s :: start <= s < LoopEnd(b) ==> ClusterAt(b.perCluster, start, s) * 3 / 2 + 1 < SECTOR * t.perFat)
  }

  lemma WholeBlock(first: nat, end: nat)
    requires first < end && first % PER_BLOCK == 0 && end % PER_BLOCK == 0
    ensures first + PER_BLOCK <= end
  {
  }

  lemma SafeBlockIsRead(b: Boot, t: Boot, start: nat, disk: seq<byte>, first: nat)
    requires 0 < b.perCluster && OnDisk(PlacesOf(b, t), |disk|) && Entries(b, t, start)
    requires first < LoopEnd(b) && first % PER_BLOCK == 0 && SafeBlock(b, t, start, first)
    ensures BlockRead(b, t, start, disk, first)
  {
    WholeBlock(first, LoopEnd(b));
    SafeIsRead(b.perCluster, DataStart(b), start, PlacesOf(b, t), disk, first, PER_BLOCK);
  }

  lemma UnsafeBlockIsLost(boot: seq<byte>, b: Boot, t: Boot, start: nat, size: nat, first: nat) returns (disk: seq<byte>)
    requires |boot| == SECTOR < size && 0 < b.perCluster && 1 <= b.reserved && 1 <= t.reserved
    requires OnDisk(PlacesOf(b, t), size) && Entries(b, t, start)
    requires first < LoopEnd(b) && first % PER_BLOCK == 0 && !SafeBlock(b, t, start, first)
    ensures |disk| == size && boot <= disk && !BlockRead(b, t, start, disk, first)
  {
    WholeBlock(first, LoopEnd(b));
    disk := UnsafeIsLost(b.perCluster, DataStart(b), start, PlacesOf(b, t), boot, size, first, PER_BLOCK);
  }

  /**
   * A fast copy reads every block in use, whatever the source holds behind its boot sector, if and only if all blocks
   * are safe. They are when the start of data is that of the source and the target has its FAT at the same place.
   */
  lemma CompleteIffSafe(boot: seq<byte>, t: Boot, start: nat, size: nat)
    requires |boot| == SECTOR < size && 0 < BootOf(boot).perCluster && 1 <= BootOf(boot).reserved && 1 <= t.reserved
    requires OnDisk(PlacesOf(BootOf(boot), t), size) && Entries(BootOf(boot), t, start)
    ensures (forall disk: seq<byte> :: |disk| == size && boot <= disk ==> AllRead(BootOf(boot), t, start, disk))
       <==> AllSafe(BootOf(boot), t, start)
    ensures start == DataStart(BootOf(boot)) && t.reserved == BootOf(boot).reserved ==> AllSafe(BootOf(boot), t, start)
  {
    var b := BootOf(boot);
    if AllSafe(b, t, start) {
      forall disk: seq<byte> | |disk| == size && boot <= disk ensures AllRead(b, t, start, disk) {
        forall first | 0 <= first < LoopEnd(b) && first % PER_BLOCK == 0 ensures BlockRead(b, t, start, disk, first) {
          SafeBlockIsRead(b, t, start, disk, first);
        }
      }
    } else {
      var first :| 0 <= first < LoopEnd(b) && first % PER_BLOCK == 0 && !SafeBlock(b, t, start, first);
      var disk := UnsafeBlockIsLost(boot, b, t, start, size, first);
      assert !AllRead(b, t, start, disk);
    }
  }

  lemma BlockIs(first: nat, s: nat)
    requires first % PER_BLOCK == 0 && first <= s < first + PER_BLOCK
    ensures BlockOf(s) == first
  {
  }

  /** A block none of whose sectors is taken for a cluster in use is left as it was. */
  lemma LeftAsItWas(v: View, wanted: Sectors, was: Sectors, now: Sectors, end: nat, first: nat)
    requires end <= |wanted| && end <= |was| && CopiedTo(v, wanted, was, now, end)
    requires v.fast && v.start < first && first % PER_BLOCK == 0 && first + PER_BLOCK <= |was|
    requires forall q :: first <= q < first + PER_BLOCK ==> !Filled(v.boot.perCluster, v.start, v.fat, q)
    ensures forall s :: first <= s < first + PER_BLOCK ==> now[s] == was[s]
  {
    assert !Taken(v, first, PER_BLOCK);
    forall s | first <= s < first + PER_BLOCK ensures now[s] == was[s] {
      BlockIs(first, s);
    }
  }

  /**
   * A 720K pair after a 1440K pair, with cluster 100 alone allocated: the copy goes by the start of data 33 instead
   * of 14, and the sectors 210 and 211 of the cluster are not copied.
   */
  lemma SecondPairLoses(v: View, wanted: Sectors, was: Sectors, now: Sectors)
    requires v.fast && v.boot == Boot(512, 2, 1, 2, 112, 1440, 3) && v.fat == Alone(1536, 100)
    requires v.start == DataStart(Boot(512, 1, 1, 2, 224, 2880, 9))
    requires |wanted| == |was| == 1440 && LoopEnd(v.boot) == 1440 && CopiedTo(v, wanted, was, now, LoopEnd(v.boot))
    ensures Readable(v, 0, LoopEnd(v.boot)) && !SafeBlock(v.boot, v.boot, v.start, 192)
    ensures forall s :: 210 <= s <= 211 ==> InUse(2, DataStart(v.boot), v.fat, s) && now[s] == was[s]
  {
    assert v.start == 33 && DataStart(v.boot) == 14;
    forall q | 192 <= q < 224 ensures !Filled(2, 33, v.fat, q) {
      AloneIs(1536, 100, ClusterAt(2, 33, q));
    }
    LeftAsItWas(v, wanted, was, now, 1440, 192);
    AloneIs(1536, 100, 100);
    assert ClusterAt(2, 14, 210) == 100 && ClusterAt(2, 14, 211) == 100;
  }

  /**
   * A 720K source and a target of the same capacity whose FATs have two more sectors each, with cluster 105 alone
   * allocated: the copy goes by the start of data 18 instead of 14, and the sectors 220 and 221 are not copied.
   */
  lemma LargerFatLoses(b: Boot, own: seq<byte>, v: View, wanted: Sectors, was: Sectors, now: Sectors)
    requires b == Boot(512, 2, 1, 2, 112, 1440, 3) && own == Alone(1536, 105)
    requires v.fast && v.boot == Boot(512, 2, 1, 2, 112, 1440, 5) && v.start == DataStart(v.boot)
    requires |v.fat| == 2560 && v.fat[..1536] == own
    requires |wanted| == |was| == 1440 && LoopEnd(b) == 1440 && CopiedTo(v, wanted, was, now, LoopEnd(b))
    ensures Readable(v, 0, LoopEnd(b)) && !SafeBlock(b, v.boot, v.start, 192)
    ensures forall s :: 220 <= s <= 221 ==> InUse(2, DataStart(b), own, s) && now[s] == was[s]
  {
    assert v.start == 18 && DataStart(b) == 14;
    forall q | 192 <= q < 224 ensures !Filled(2, 18, v.fat, q) {
      var c := ClusterAt(2, 18, q);
      AloneIs(1536, 105, c);
      assert v.fat[c * 3 / 2] == own[c * 3 / 2] && v.fat[c * 3 / 2 + 1] == own[c * 3 / 2 + 1];
    }
    LeftAsItWas(v, wanted, was, now, 1440, 192);
    AloneIs(1536, 105, 105);
    assert ClusterAt(2, 14, 220) == 105 && ClusterAt(2, 14, 221) == 105;
  }

  /**
   * A 720K source, its second FAT like the first, and a target of the same capacity with one more reserved sector:
   * the FAT is read from the second sector of the first FAT on, and the sectors 1410 and 1411 of cluster 700, which
   * alone is allocated, are not copied.
   */
  lemma FatElsewhereLoses(b: Boot, own: seq<byte>, v: View, wanted: Sectors, was: Sectors, now: Sectors)
    requires b == Boot(512, 2, 1, 2, 112, 1440, 3) && own == Alone(1536, 700)
    requires v.fast && v.boot == Boot(512, 2, 2, 2, 112, 1440, 3) && v.start == DataStart(v.boot)
    requires v.fat == own[SECTOR..] + own[..SECTOR]
    requires |wanted| == |was| == 1440 && LoopEnd(b) == 1440 && CopiedTo(v, wanted, was, now, LoopEnd(b))
    ensures Readable(v, 0, LoopEnd(b)) && !SafeBlock(b, v.boot, v.start, 1408)
    ensures forall s :: 1410 <= s <= 1411 ==> InUse(2, DataStart(b), own, s) && now[s] == was[s]
  {
    assert v.start == 15 && DataStart(b) == 14;
    RecordBc.ZeroEntry();
    forall q | 1408 <= q < 1440 ensures !Filled(2, 15, v.fat, q) {
      var i := ClusterAt(2, 15, q) * 3 / 2;
      assert v.fat[i] == own[i - 1024] == 0 && v.fat[i + 1] == own[i - 1023] == 0;
    }
    LeftAsItWas(v, wanted, was, now, 1440, 1408);
    AloneIs(1536, 700, 700);
    assert ClusterAt(2, 14, 1410) == 700 && ClusterAt(2, 14, 1411) == 700;
  }

  /** Two numbers below `n` in absolute value and from 0 to n-1 that differ by a multiple of `n`. */
  lemma Multiple(x: int, n: nat, d: int, m: int)
    requires 0 < d + n && d < n && 0 <= m < n && m == x * n + d
    ensures x == if d < 0 then 1 else 0
  {
    Times(2, x, n);
    Times(x, -1, n);
  }

  lemma Minus(x: int, y: int, n: nat)
    ensures (x - y) * n == x * n - y * n
  {
  }

  /** Where the last cluster ends, seen from the end of the volume cut down to a multiple of the cluster size. */
  lemma LastCluster(total: nat, start: nat, n: nat)
    requires 0 < n && start <= total
    ensures start + (total - start) / n * n
         == total / n * n + if start % n <= total % n then start % n else start % n - n
  {
    var a, r, q, t := total / n, total % n, start / n, start % n;
    var k := (total - start) / n;
    assert total == a * n + r && start == q * n + t;
    assert k * n <= total - start < k * n + n;
    Minus(a, q, n);
    Minus(a - q, k, n);
    Multiple(a - q - k, n, r - t, total - start - k * n);
  }

  /**
   * The loop reaches behind the last cluster exactly when data begin at a multiple of the cluster size, or fewer
   * sectors are cut off than data exceed such a multiple by, or the last block makes up for it.
   */
  lemma LoopCoversData(b: Boot)
    requires 0 < b.perCluster && DataStart(b) <= b.sectors
    ensures SectorOf(2 + (b.sectors - DataStart(b)) / b.perCluster, DataStart(b), b.perCluster) <= LoopEnd(b)
       <==> || DataStart(b) % b.perCluster == 0 || b.sectors % b.perCluster < DataStart(b) % b.perCluster
            || DataStart(b) % b.perCluster <= LoopEnd(b) - EndSector(b)
  {
    LastCluster(b.sectors, DataStart(b), b.perCluster);
  }

  /** On a volume of whole blocks whose clusters divide a block nothing is cut off. */
  lemma WholeBlocksCover(b: Boot)
    requires 0 < b.perCluster && DataStart(b) <= b.sectors && b.sectors % PER_BLOCK == 0 && PER_BLOCK % b.perCluster == 0
    ensures SectorOf(2 + (b.sectors - DataStart(b)) / b.perCluster, DataStart(b), b.perCluster) <= LoopEnd(b)
  {
    var n, j := b.perCluster, b.sectors / PER_BLOCK;
    var k := PER_BLOCK / n;
    assert PER_BLOCK == k * n && b.sectors == j * PER_BLOCK;
    assert b.sectors == (j * k) * n;
    Quotient(b.sectors, n, j * k);
    LoopCoversData(b);
  }

  /**
   * A volume of 1441 sectors with clusters of two and data from sector 15 on: the last cluster, 714, is allocated
   * and ends behind sector 1440, which is not copied.
   */
  lemma LastSectorLost(v: View, wanted: Sectors, was: Sectors, now: Sectors)
    requires v == View(true, Boot(512, 2, 2, 2, 112, 1441, 3), 15, Alone(1536, 714))
    requires |wanted| == |was| == 1441 && LoopEnd(v.boot) <= 1441 && CopiedTo(v, wanted, was, now, LoopEnd(v.boot))
    ensures v.start == DataStart(v.boot) && LoopEnd(v.boot) == 1440 && Readable(v, 0, LoopEnd(v.boot))
    ensures InUse(2, DataStart(v.boot), v.fat, 1440) && now[1440] == was[1440]
  {
    AloneIs(1536, 714, 714);
    assert ClusterAt(2, 15, 1440) == 714;
  }
}
