/** format/recordbc.c, lines 290 to 381: bad clusters are marked in FATs that are already filled in. */
module RecordBc32 {
  import opened Bytes
  import opened Fat
  import opened RecordBc

  /** The value is in the range that means "bad"; all 32 bits are compared. */
  predicate IsMarked(v: word) {
    0x0fff_fff0 <= v <= 0x0fff_fff7
  }

  function Stamped(t: seq<byte>, j: nat): (r: seq<byte>)
    requires 4 * j + 3 < |t|
    ensures |r| == |t|
  {
    t[4 * j := 0xf0][4 * j + 1 := 0xff][4 * j + 2 := 0xff][4 * j + 3 := 0x0f]
  }

  lemma Stamp()
    ensures Word(0xf0, 0xff, 0xff, 0x0f) == 0x0fff_fff0 && IsMarked(0x0fff_fff0)
  {
  }

  lemma StampedEntries(t: seq<byte>, j: nat, i: nat)
    requires 4 * j + 3 < |t| && 4 * i + 3 < |t|
    ensures Entry32(Stamped(t, j), i) == if i == j then 0x0fff_fff0 else Entry32(t, i)
  {
    Stamp();
    var s := Stamped(t, j);
    if i != j {
      assert s[4 * i] == t[4 * i] && s[4 * i + 1] == t[4 * i + 1];
      assert s[4 * i + 2] == t[4 * i + 2] && s[4 * i + 3] == t[4 * i + 3];
    }
  }

  /** Entry `c` of the FAT that begins at sector `start`. */
  ghost function FatEntry32(d: seq<seq<byte>>, start: nat, c: nat): word
    requires Formatted(d) && start + c / 128 < |d|
  {
    Entry32(d[start + c / 128], c % 128)
  }

  ghost predicate InFat(b: Bpb, cs: seq<int>) {
    forall i :: 0 <= i < |cs| ==> 2 <= cs[i] && cs[i] / 128 < b.fatSize
  }

  /** One cluster is marked unless it is already: its sector of the first FAT also becomes that of the second. */
  ghost function Marked32(d: seq<seq<byte>>, b: Bpb, c: nat): (r: seq<seq<byte>>)
    requires Formatted(d) && Fits(b, |d|) && c / 128 < b.fatSize
    ensures |r| == |d| && Formatted(r)
  {
    if IsMarked(FatEntry32(d, b.reserved, c)) then d
    else Twice(d, b, c / 128, Stamped(d[b.reserved + c / 128], c % 128))
  }

  ghost function Recorded32(d: seq<seq<byte>>, b: Bpb, cs: seq<int>, n: nat): (r: seq<seq<byte>>)
    requires Formatted(d) && Fits(b, |d|) && InFat(b, cs) && n <= |cs|
    ensures |r| == |d| && Formatted(r)
    decreases n, cs
  {
    if n == 0 then d else Marked32(Recorded32(d, b, cs, n - 1), b, cs[n - 1])
  }

  /** How many of the first `n` clusters had to be marked when their turn came. */
  ghost function Marks(d: seq<seq<byte>>, b: Bpb, cs: seq<int>, n: nat): (r: nat)
    requires Formatted(d) && Fits(b, |d|) && InFat(b, cs) && n <= |cs|
    decreases n, cs
  {
    if n == 0 then 0
    else if IsMarked(FatEntry32(Recorded32(d, b, cs, n - 1), b.reserved, cs[n - 1])) then Marks(d, b, cs, n - 1)
    else Marks(d, b, cs, n - 1) + 1
  }

  lemma OneMark(d: seq<seq<byte>>, b: Bpb, c: nat, e: nat)
    requires Formatted(d) && Fits(b, |d|) && c / 128 < b.fatSize && e / 128 < b.fatSize
    ensures FatEntry32(Marked32(d, b, c), b.reserved, e)
         == if e == c && !IsMarked(FatEntry32(d, b.reserved, c)) then 0x0fff_fff0 else FatEntry32(d, b.reserved, e)
  {
    if e / 128 == c / 128 {
      StampedEntries(d[b.reserved + c / 128], c % 128, e % 128);
    }
  }

  /** Exactly the listed clusters that were not marked yet get the mark; every other entry keeps its value. */
  lemma {:induction false} FirstFat(d: seq<seq<byte>>, b: Bpb, cs: seq<int>, n: nat, e: nat)
    requires Formatted(d) && Fits(b, |d|) && InFat(b, cs) && n <= |cs| && e / 128 < b.fatSize
    ensures FatEntry32(Recorded32(d, b, cs, n), b.reserved, e)
         == if e in cs[..n] && !IsMarked(FatEntry32(d, b.reserved, e)) then 0x0fff_fff0
            else FatEntry32(d, b.reserved, e)
    decreases n
  {
    if n > 0 {
      FirstFat(d, b, cs, n - 1, e);
      OneMark(Recorded32(d, b, cs, n - 1), b, cs[n - 1], e);
      Stamp();
      assert cs[..n] == cs[..n - 1] + [cs[n - 1]];
    }
  }

  ghost predicate Alike(d: seq<seq<byte>>, b: Bpb)
    requires b.reserved + 2 * b.fatSize <= |d|
  {
    forall s :: b.reserved <= s < b.reserved + b.fatSize ==> d[s + b.fatSize] == d[s]
  }

  /** FATs that were alike stay alike, and nothing outside them is written. */
  lemma {:induction false} Mirrored(d: seq<seq<byte>>, b: Bpb, cs: seq<int>, n: nat, s: nat)
    requires Formatted(d) && Fits(b, |d|) && InFat(b, cs) && n <= |cs| && s < |d|
    requires b.fats == 2 ==> Alike(d, b)
    ensures var r := Recorded32(d, b, cs, n);
            && (b.fats == 2 && b.reserved <= s < b.reserved + b.fatSize ==> r[s + b.fatSize] == r[s])
            && (s < b.reserved || b.reserved + (if b.fats == 2 then 2 else 1) * b.fatSize <= s ==> r[s] == d[s])
    decreases n
  {
    if n > 0 { Mirrored(d, b, cs, n - 1, s); }
  }

  /** The clusters counted: the listed ones that had not been marked before. */
  ghost function Fresh(d: seq<seq<byte>>, b: Bpb, cs: seq<int>, n: nat): (r: set<int>)
    requires Formatted(d) && Fits(b, |d|) && InFat(b, cs) && n <= |cs|
    decreases n, cs
  {
    if n == 0 then {}
    else if IsMarked(FatEntry32(d, b.reserved, cs[n - 1])) then Fresh(d, b, cs, n - 1)
    else Fresh(d, b, cs, n - 1) + {cs[n - 1]}
  }

  lemma {:induction false} FreshAre(d: seq<seq<byte>>, b: Bpb, cs: seq<int>, n: nat, c: nat)
    requires Formatted(d) && Fits(b, |d|) && InFat(b, cs) && n <= |cs| && c / 128 < b.fatSize
    ensures c in Fresh(d, b, cs, n) <==> c in cs[..n] && !IsMarked(FatEntry32(d, b.reserved, c))
    decreases n
  {
    if n > 0 {
      FreshAre(d, b, cs, n - 1, c);
      assert cs[..n] == cs[..n - 1] + [cs[n - 1]];
    }
  }

  /** The cluster whose turn it is has to be marked unless it was marked before or has been by now. */
  lemma MarksNext(d: seq<seq<byte>>, b: Bpb, cs: seq<int>, n: nat) returns (needed: bool)
    requires Formatted(d) && Fits(b, |d|) && InFat(b, cs) && 0 < n <= |cs|
    ensures Marks(d, b, cs, n) == Marks(d, b, cs, n - 1) + if needed then 1 else 0
    ensures needed <==> !IsMarked(FatEntry32(d, b.reserved, cs[n - 1])) && cs[n - 1] !in cs[..n - 1]
  {
    needed := !IsMarked(FatEntry32(Recorded32(d, b, cs, n - 1), b.reserved, cs[n - 1]));
    FirstFat(d, b, cs, n - 1, cs[n - 1]);
    Stamp();
  }

  lemma OneMoreElement(s: set<int>, c: int)
    ensures |s + {c}| == |s| + if c in s then 0 else 1
  {
    if c in s { assert s + {c} == s; }
  }

  lemma FreshNext(d: seq<seq<byte>>, b: Bpb, cs: seq<int>, n: nat, needed: bool)
    requires Formatted(d) && Fits(b, |d|) && InFat(b, cs) && 0 < n <= |cs|
    requires needed <==> !IsMarked(FatEntry32(d, b.reserved, cs[n - 1])) && cs[n - 1] !in cs[..n - 1]
    ensures |Fresh(d, b, cs, n)| == |Fresh(d, b, cs, n - 1)| + if needed then 1 else 0
  {
    FreshAre(d, b, cs, n - 1, cs[n - 1]);
    OneMoreElement(Fresh(d, b, cs, n - 1), cs[n - 1]);
  }

  lemma {:induction false} MarksAreFresh(d: seq<seq<byte>>, b: Bpb, cs: seq<int>, n: nat)
    requires Formatted(d) && Fits(b, |d|) && InFat(b, cs) && n <= |cs|
    ensures Marks(d, b, cs, n) == |Fresh(d, b, cs, n)|
    decreases n
  {
    if n == 0 {
      assert Marks(d, b, cs, 0) == 0 && Fresh(d, b, cs, 0) == {};
    } else {
      MarksAreFresh(d, b, cs, n - 1);
      var needed := MarksNext(d, b, cs, n);
      FreshNext(d, b, cs, n, needed);
    }
  }

  /** The first `index` clusters have been gone through. */
  ghost predicate Marking(now: seq<seq<byte>>, d: seq<seq<byte>>, b: Bpb, cs: seq<int>, index: int, units: int) {
    && Formatted(d) && Fits(b, |d|) && InFat(b, cs) && 0 <= index <= |cs|
    && now == Recorded32(d, b, cs, index) && units == Marks(d, b, cs, index)
  }

  method ReadValue(drive: Drive, buffer: array<byte>, fatSector: nat, j: nat) returns (fatValue: word)
    requires buffer.Length == SECTOR && Formatted(drive.sectors) && fatSector < |drive.sectors| && j < 128
    modifies buffer
    ensures buffer[..] == drive.sectors[fatSector] && fatValue == Entry32(drive.sectors[fatSector], j)
  {
    var fatIndex := 4 * j;
    drive.Read(fatSector, 1, buffer);
    ghost var sector := drive.sectors[fatSector];
    forall i | 0 <= i < SECTOR ensures buffer[i] == sector[i] {
      assert fatSector + i / SECTOR == fatSector && i % SECTOR == i;
    }
    assert buffer[..] == sector;
    fatValue := Word(buffer[fatIndex], buffer[fatIndex + 1], buffer[fatIndex + 2], buffer[fatIndex + 3]);
  }

  method StampBuffer(buffer: array<byte>, j: nat)
    requires buffer.Length == SECTOR && j < 128
    modifies buffer
    ensures buffer[..] == Stamped(old(buffer[..]), j)
  {
    var fatIndex := 4 * j;
    buffer[fatIndex] := 0xf0;
    buffer[fatIndex + 1] := 0xff;
    buffer[fatIndex + 2] := 0xff;
    buffer[fatIndex + 3] := 0x0f;
  }

  /** Lines 337 to 373 */
  method MarkOne(drive: Drive, buffer: array<byte>, b: Bpb, c: nat) returns (unmarked: bool)
    requires buffer.Length == SECTOR && Formatted(drive.sectors) && Fits(b, |drive.sectors|) && c / 128 < b.fatSize
    modifies drive, buffer
    ensures unmarked <==> !IsMarked(FatEntry32(old(drive.sectors), b.reserved, c))
    ensures drive.sectors == Marked32(old(drive.sectors), b, c)
  {
    var fatSector := b.reserved + c / 128;
    var fatValue := ReadValue(drive, buffer, fatSector, c % 128);
    unmarked := fatValue < 0x0fff_fff0 || fatValue > 0x0fff_fff7;
    if unmarked {
      StampBuffer(buffer, c % 128);
      drive.Write(fatSector, buffer);
      if b.fats == 2 {
        drive.Write(fatSector + b.fatSize, buffer);
      }
    }
  }

  /** One turn of the loop, and whether there is another one. */
  method MarkNext32(drive: Drive, list: BadList, index: nat, buffer: array<byte>, b: Bpb, first: nat, perCluster: nat,
                    u: nat, ghost cs: seq<int>, ghost d: seq<seq<byte>>)
    returns (units: nat, more: bool)
    requires buffer.Length == SECTOR && Feeds(list, first, perCluster, cs) && index < |cs|
    requires Marking(drive.sectors, d, b, cs, index, u)
    modifies drive, buffer
    ensures Marking(drive.sectors, d, b, cs, index + 1, units) && (more <==> index + 1 < |cs|)
    ensures Feeds(list, first, perCluster, cs)
  {
    units := u;
    var badCluster := Translate(list, index, first, perCluster, cs);
    var unmarked := MarkOne(drive, buffer, b, badCluster);
    if unmarked {
      units := units + 1;
    }
    more := More(list, index + 1, first, perCluster, cs);
  }

  /** Lines 324 to 376: cluster after cluster of the list. */
  method MarkAll(drive: Drive, list: BadList, buffer: array<byte>, b: Bpb, first: nat, perCluster: nat,
                 ghost cs: seq<int>)
    returns (units: nat)
    requires buffer.Length == SECTOR && Formatted(drive.sectors) && Fits(b, |drive.sectors|)
    requires Feeds(list, first, perCluster, cs) && InFat(b, cs)
    modifies drive, buffer
    ensures drive.sectors == Recorded32(old(drive.sectors), b, cs, |cs|)
    ensures units == Marks(old(drive.sectors), b, cs, |cs|)
  {
    ghost var d := drive.sectors;
    var index := 0;
    units := 0;
    var more := More(list, index, first, perCluster, cs);
    while more
      invariant (more <==> index < |cs|) && Marking(drive.sectors, d, b, cs, index, units)
      invariant Feeds(list, first, perCluster, cs)
      decreases |cs| - index
    {
      units, more := MarkNext32(drive, list, index, buffer, b, first, perCluster, units, cs, d);
      index := index + 1;
    }
  }

  /** The data area begins right behind the FATs. */
  method RecordBadClusters32(drive: Drive, list: BadList, buffer: array<byte>, b: Bpb) returns (o: Outcome)
    requires list.Valid() && buffer.Length == SECTOR && Formatted(drive.sectors)
    requires 1 <= b.reserved && Fits(b, |drive.sectors|)
    requires Listed(list.Contents(), FirstRoot(b), b.perCluster)
    requires FirstRoot(b) <= list.bads[0] ==> InFat(b, Clusters(list.Contents(), FirstRoot(b), b.perCluster))
    modifies drive, buffer
    ensures o.Unusable? <==> list.bads[0] < FirstRoot(b)
    ensures o.Unusable? ==> drive.sectors == old(drive.sectors)
    ensures o.Unusable? ==> o.part == (if list.bads[0] < b.reserved then BootSector else FatSector)
    ensures o.Recorded? ==>
      var cs := Clusters(list.Contents(), FirstRoot(b), b.perCluster);
      && drive.sectors == Recorded32(old(drive.sectors), b, cs, |cs|)
      && o.units == Marks(old(drive.sectors), b, cs, |cs|)
  {
    if list.bads[0] < FirstRoot(b) {
      return Unusable(if list.bads[0] < b.reserved then BootSector else FatSector);
    }
    ghost var cs := Clusters(list.Contents(), FirstRoot(b), b.perCluster);
    var units := MarkAll(drive, list, buffer, b, FirstRoot(b), b.perCluster, cs);
    return Recorded(units);
  }
}
