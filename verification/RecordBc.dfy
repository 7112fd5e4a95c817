/** format/recordbc.c: the listed bad sectors are marked in the file allocation tables. */
module RecordBc {
  import opened Bytes
  import opened Fat

  datatype Part = BootSector | FatSector | RootDirectory

  /** What unusable_wimp reports, or success with the number of clusters counted as bad. */
  datatype Outcome = Unusable(part: Part) | Recorded(units: nat)

  ghost predicate AtLeast(list: seq<int>, first: nat) {
    forall i :: 0 <= i < |list| ==> first <= list[i]
  }

  /** The clusters of the listed sectors, rounded up as in lines 111 to 114. */
  ghost function Clusters(list: seq<int>, first: nat, perCluster: nat): (r: seq<int>)
    requires 0 < perCluster && AtLeast(list, first)
    ensures |r| == |list|
    ensures forall i :: 0 <= i < |r| ==> r[i] == ClusterOf(list[i], first, perCluster)
  {
    seq(|list|, i requires 0 <= i < |list| => ClusterOf(list[i], first, perCluster))
  }

  lemma ClustersSorted(list: seq<int>, first: nat, perCluster: nat)
    requires 0 < perCluster && AtLeast(list, first) && Nondecreasing(list)
    ensures Nondecreasing(Clusters(list, first, perCluster))
  {
    forall i, j | 0 <= i < j < |list|
      ensures ClusterOf(list[i], first, perCluster) <= ClusterOf(list[j], first, perCluster)
    {
      ClusterOfMonotone(list[i], list[j], first, perCluster);
    }
  }

  /** How often a cluster differs from the one before it: the count of lines 116 to 120. */
  function Changes(cs: seq<int>, n: nat): (r: nat)
    requires n <= |cs|
  {
    if n == 0 then 0 else Changes(cs, n - 1) + if n == 1 || cs[n - 1] != cs[n - 2] then 1 else 0
  }

  /** The last cluster and the count after the first `n` clusters; 0xffff stands for no cluster. */
  ghost function Counted(cs: seq<int>, n: nat): (int, nat)
    requires n <= |cs|
  {
    (if n == 0 then 0xffff else cs[n - 1], Changes(cs, n))
  }

  ghost function Distinct(cs: seq<int>, n: nat): set<int>
    requires n <= |cs|
  {
    set i | 0 <= i < n :: cs[i]
  }

  lemma DistinctNext(cs: seq<int>, n: nat)
    requires 0 < n <= |cs| && Nondecreasing(cs)
    ensures Distinct(cs, n) == Distinct(cs, n - 1) + {cs[n - 1]}
    ensures cs[n - 1] in Distinct(cs, n - 1) <==> n > 1 && cs[n - 1] == cs[n - 2]
  {
    if n > 1 { assert cs[n - 2] in Distinct(cs, n - 1); }
  }

  /** On a nondecreasing list the count is that of distinct clusters. */
  lemma {:induction false} ChangesAreDistinct(cs: seq<int>, n: nat)
    requires n <= |cs| && Nondecreasing(cs)
    ensures Changes(cs, n) == |Distinct(cs, n)|
  {
    if n > 0 {
      ChangesAreDistinct(cs, n - 1);
      DistinctNext(cs, n);
    }
  }

  function Failure(sector: int, b: Bpb): Part {
    if sector < b.reserved then BootSector else if sector < FirstRoot(b) then FatSector else RootDirectory
  }

  // ----- 12 bits -----

  const TABLE := 6145

  function Packed(t: seq<byte>, c: nat): (r: seq<byte>)
    requires c * 3 / 2 + 1 < |t|
    ensures |r| == |t|
  {
    var i := c * 3 / 2;
    if c % 2 == 0 then t[i := 0xf7][i + 1 := 0x0f | (t[i + 1] & 0xf0)]
    else t[i := 0x70 | (t[i] & 0x0f)][i + 1 := 0xff]
  }

  lemma BadMark(y: byte)
    ensures EvenEntry(0xf7, 0x0f | (y & 0xf0)) == 0xff7 && OddEntry(0x70 | (y & 0x0f), 0xff) == 0xff7
  {
  }

  /** A write to the low half of the shared byte leaves the odd entry. */
  lemma SameHigh(x: byte, y: byte, z: byte)
    requires z == 0x0f | (y & 0xf0)
    ensures OddEntry(z, x) == OddEntry(y, x)
  {
  }

  /** A write to the high half of the shared byte leaves the even entry. */
  lemma SameLow(x: byte, y: byte, z: byte)
    requires z == 0x70 | (y & 0x0f)
    ensures EvenEntry(x, z) == EvenEntry(x, y)
  {
  }

  /** An entry depends on its two bytes alone. */
  lemma SameEntry(t: seq<byte>, r: seq<byte>, d: nat, j: nat)
    requires j == d * 3 / 2 && j + 1 < |t| == |r| && r[j] == t[j] && r[j + 1] == t[j + 1]
    ensures Entry12(r, d) == Entry12(t, d)
  {
  }

  /** The entry that is written. */
  lemma PackedMarks(t: seq<byte>, c: nat)
    requires c * 3 / 2 + 1 < |t|
    ensures Entry12(Packed(t, c), c) == 0xff7
  {
    BadMark(if c % 2 == 0 then t[c * 3 / 2 + 1] else t[c * 3 / 2]);
  }

  /** What a packed write does to the bytes. */
  lemma WrittenAt(t: seq<byte>, c: nat, i: nat)
    requires i == c * 3 / 2 && i + 1 < |t|
    ensures c % 2 == 0 ==> Packed(t, c)[i] == 0xf7 && Packed(t, c)[i + 1] == 0x0f | (t[i + 1] & 0xf0)
    ensures c % 2 == 1 ==> Packed(t, c)[i] == 0x70 | (t[i] & 0x0f) && Packed(t, c)[i + 1] == 0xff
    ensures forall j :: 0 <= j < |t| && j != i && j != i + 1 ==> Packed(t, c)[j] == t[j]
  {
  }

  lemma EntryAt(t: seq<byte>, c: nat, i: nat)
    requires i == c * 3 / 2 && i + 1 < |t|
    ensures Entry12(t, c) == if c % 2 == 0 then EvenEntry(t[i], t[i + 1]) else OddEntry(t[i], t[i + 1])
  {
  }

  lemma PlaceOf(c: nat, k: nat, r: nat)
    requires c == 2 * k + r && r < 2
    ensures c * 3 / 2 == 3 * k + r
  {
  }

  /** The odd entry that shares a byte with an even one that is written. */
  lemma EvenLeavesOdd(t: seq<byte>, k: nat)
    requires 3 * k + 2 < |t|
    ensures Entry12(Packed(t, 2 * k), 2 * k + 1) == Entry12(t, 2 * k + 1)
  {
    var i := 3 * k;
    PlaceOf(2 * k, k, 0);
    PlaceOf(2 * k + 1, k, 1);
    var r := Packed(t, 2 * k);
    WrittenAt(t, 2 * k, i);
    EntryAt(t, 2 * k + 1, i + 1);
    EntryAt(r, 2 * k + 1, i + 1);
    SameHigh(t[i + 2], t[i + 1], r[i + 1]);
  }

  /** The even entry that shares a byte with an odd one that is written. */
  lemma OddLeavesEven(t: seq<byte>, k: nat)
    requires 3 * k + 2 < |t|
    ensures Entry12(Packed(t, 2 * k + 1), 2 * k) == Entry12(t, 2 * k)
  {
    var i := 3 * k;
    PlaceOf(2 * k, k, 0);
    PlaceOf(2 * k + 1, k, 1);
    var r := Packed(t, 2 * k + 1);
    WrittenAt(t, 2 * k + 1, i + 1);
    EntryAt(t, 2 * k, i);
    EntryAt(r, 2 * k, i);
    SameLow(t[i], t[i + 1], r[i + 1]);
  }

  lemma Apart(c: nat, d: nat)
    requires d / 2 != c / 2
    ensures d * 3 / 2 + 1 < c * 3 / 2 || c * 3 / 2 + 1 < d * 3 / 2
  {
    PlaceOf(c, c / 2, c % 2);
    PlaceOf(d, d / 2, d % 2);
  }

  /** An entry of another pair has neither of the two bytes. */
  lemma FarEntry(t: seq<byte>, c: nat, d: nat)
    requires c * 3 / 2 + 1 < |t| && d * 3 / 2 + 1 < |t| && d / 2 != c / 2
    ensures Entry12(Packed(t, c), d) == Entry12(t, d)
  {
    Apart(c, d);
    SameEntry(t, Packed(t, c), d, d * 3 / 2);
  }

  /** A packed write marks its own entry and disturbs no other. */
  lemma PackedEntries(t: seq<byte>, c: nat, d: nat)
    requires c * 3 / 2 + 1 < |t| && d * 3 / 2 + 1 < |t|
    ensures Entry12(Packed(t, c), d) == if d == c then 0xff7 else Entry12(t, d)
  {
    if d == c {
      PackedMarks(t, c);
    } else if d / 2 != c / 2 {
      FarEntry(t, c, d);
    } else if c % 2 == 0 {
      EvenLeavesOdd(t, c / 2);
    } else {
      OddLeavesEven(t, d / 2);
    }
  }

  function Initial12(media: byte): (t: seq<byte>)
    ensures |t| == TABLE
  {
    seq(TABLE, i => if i == 0 then media else if i < 3 then 0xff else 0)
  }

  ghost predicate InTable(cs: seq<int>) {
    forall i :: 0 <= i < |cs| ==> 2 <= cs[i] <= 4095
  }

  /** The table after the first `n` clusters of the list. */
  ghost function Table12(media: byte, cs: seq<int>, n: nat): (t: seq<byte>)
    requires n <= |cs| && InTable(cs)
    ensures |t| == TABLE
  {
    if n == 0 then Initial12(media) else Packed(Table12(media, cs, n - 1), cs[n - 1])
  }

  /** The cluster is among the first `n`. */
  ghost predicate Among(cs: seq<int>, n: nat, c: nat)
    requires n <= |cs|
  {
    exists i :: 0 <= i < n && cs[i] == c
  }

  lemma AmongNext(cs: seq<int>, n: nat, c: nat)
    requires 0 < n <= |cs|
    ensures Among(cs, n, c) <==> Among(cs, n - 1, c) || cs[n - 1] == c
  {
  }

  lemma ZeroEntry()
    ensures EvenEntry(0, 0) == 0 && OddEntry(0, 0) == 0
  {
  }

  /** The finished table marks exactly the listed clusters; its first three bytes are those of an empty FAT. */
  lemma {:induction false} Table12Marks(media: byte, cs: seq<int>, n: nat, c: nat)
    requires n <= |cs| && InTable(cs) && 2 <= c <= 4095
    ensures Entry12(Table12(media, cs, n), c) == if Among(cs, n, c) then 0xff7 else 0
  {
    if n == 0 {
      ZeroEntry();
    } else {
      Table12Marks(media, cs, n - 1, c);
      AmongNext(cs, n, c);
      PackedEntries(Table12(media, cs, n - 1), cs[n - 1], c);
    }
  }

  lemma {:induction false} Table12Starts(media: byte, cs: seq<int>, n: nat)
    requires n <= |cs| && InTable(cs)
    ensures Table12(media, cs, n)[..3] == [media, 0xff, 0xff]
  {
    if n > 0 { Table12Starts(media, cs, n - 1); }
  }

  /** The first `n` sectors of a table go to the first FAT and, when there are exactly two, to the second. */
  ghost function Copied(d: seq<seq<byte>>, b: Bpb, table: seq<byte>, n: nat): (r: seq<seq<byte>>)
    requires n <= b.fatSize && SECTOR * b.fatSize <= |table|
    ensures |r| == |d|
  {
    seq(|d|, s requires 0 <= s < |d| =>
      if b.reserved <= s < b.reserved + n then table[SECTOR * (s - b.reserved)..SECTOR * (s - b.reserved) + SECTOR]
      else if b.fats == 2 && b.reserved + b.fatSize <= s < b.reserved + b.fatSize + n then
        table[SECTOR * (s - b.reserved - b.fatSize)..SECTOR * (s - b.reserved - b.fatSize) + SECTOR]
      else d[s])
  }

  /** Both FATs lie on the disk. */
  predicate Fits(b: Bpb, size: nat) {
    b.reserved + (if b.fats == 2 then 2 else 1) * b.fatSize <= size
  }

  /** The list as a caller hands it over: a broken system area shows in its first entry. */
  ghost predicate Listed(list: seq<int>, first: nat, perCluster: nat) {
    0 < perCluster && (0 < |list| && first <= list[0] ==> AtLeast(list, first))
  }

  /** The list stands for these clusters. */
  ghost predicate Feeds(list: BadList, first: nat, perCluster: nat, cs: seq<int>)
    reads list, list.bads
  {
    && list.Valid() && 0 < perCluster && AtLeast(list.Contents(), first)
    && cs == Clusters(list.Contents(), first, perCluster)
  }

  /** The cluster of the listed sector. */
  method Translate(list: BadList, index: nat, first: nat, perCluster: nat, ghost cs: seq<int>) returns (c: nat)
    requires Feeds(list, first, perCluster, cs) && index < |cs|
    ensures c == cs[index]
  {
    assert list.bads[index] == list.Contents()[index];
    c := ClusterOf(list.bads[index], first, perCluster);
  }

  /** Whether the list goes on. */
  method More(list: BadList, index: nat, ghost first: nat, ghost perCluster: nat, ghost cs: seq<int>)
    returns (more: bool)
    requires Feeds(list, first, perCluster, cs) && index <= |cs|
    ensures more <==> index < |cs|
  {
    more := list.bads[index] != 0;
  }

  /** Lines 124 to 144 */
  method Pack(fat: array<byte>, c: nat)
    requires c * 3 / 2 + 1 < fat.Length
    modifies fat
    ensures fat[..] == Packed(old(fat[..]), c)
  {
    if c % 2 == 0 {
      fat[c * 3 / 2] := 0xf7;
      fat[c * 3 / 2 + 1] := 0x0f | (fat[c * 3 / 2 + 1] & 0xf0);
    } else {
      fat[c * 3 / 2] := 0x70 | (fat[c * 3 / 2] & 0x0f);
      fat[c * 3 / 2 + 1] := 0xff;
    }
  }

  /** One turn of the loop, and whether there is another one. */
  method MarkNext(list: BadList, index: nat, fat: array<byte>, media: byte, first: nat, perCluster: nat,
                  l: int, u: nat, ghost cs: seq<int>)
    returns (lastBadCluster: int, units: nat, more: bool)
    requires Feeds(list, first, perCluster, cs) && index < |cs| && fat.Length == TABLE && InTable(cs)
    requires fat[..] == Table12(media, cs, index) && (l, u) == Counted(cs, index)
    modifies fat
    ensures fat[..] == Table12(media, cs, index + 1) && (lastBadCluster, units) == Counted(cs, index + 1)
    ensures more <==> index + 1 < |cs|
  {
    lastBadCluster, units := l, u;
    var badCluster := Translate(list, index, first, perCluster, cs);
    if badCluster != lastBadCluster {
      lastBadCluster, units := badCluster, units + 1;
    }
    Pack(fat, badCluster);
    more := More(list, index + 1, first, perCluster, cs);
  }

  method EmptyTable(fat: array<byte>, media: byte)
    requires fat.Length == TABLE
    modifies fat
    ensures fat[..] == Initial12(media)
  {
    var index := 0;
    while index < fat.Length
      invariant 0 <= index <= fat.Length && forall i :: 0 <= i < index ==> fat[i] == 0
    {
      fat[index] := 0;
      index := index + 1;
    }
    fat[0], fat[1], fat[2] := media, 0xff, 0xff;
  }

  /** Lines 92 to 149 */
  method Mark12(list: BadList, fat: array<byte>, media: byte, first: nat, perCluster: nat, ghost cs: seq<int>)
    returns (units: nat)
    requires Feeds(list, first, perCluster, cs) && 0 < |cs| && fat.Length == TABLE && InTable(cs)
    modifies fat
    ensures fat[..] == Table12(media, cs, |cs|) && units == Changes(cs, |cs|)
  {
    EmptyTable(fat, media);
    var lastBadCluster, index, u, more := 0xffff, 0, 0, true;
    while more
      invariant 0 <= index <= |cs| && (more <==> index < |cs|)
      invariant (lastBadCluster, u) == Counted(cs, index)
      invariant fat[..] == Table12(media, cs, index) && Feeds(list, first, perCluster, cs)
      decreases |cs| - index
    {
      lastBadCluster, u, more := MarkNext(list, index, fat, media, first, perCluster, lastBadCluster, u, cs);
      index := index + 1;
    }
    return u;
  }

  /** A sector goes to the first FAT and, when there are exactly two, to the second. */
  ghost function Twice(d: seq<seq<byte>>, b: Bpb, k: nat, t: seq<byte>): (r: seq<seq<byte>>)
    requires Fits(b, |d|) && k < b.fatSize
    ensures |r| == |d|
  {
    if b.fats == 2 then d[b.reserved + k := t][b.reserved + k + b.fatSize := t] else d[b.reserved + k := t]
  }

  lemma CopiedNext(d: seq<seq<byte>>, b: Bpb, table: seq<byte>, k: nat)
    requires k < b.fatSize && SECTOR * b.fatSize <= |table| && Fits(b, |d|)
    ensures Copied(d, b, table, k + 1)
         == Twice(Copied(d, b, table, k), b, k, table[SECTOR * k..SECTOR * k + SECTOR])
  {
  }

  method CopySector(fat: array<byte>, at: nat, buffer: array<byte>)
    requires at + SECTOR <= fat.Length && buffer.Length == SECTOR && fat != buffer
    modifies buffer
    ensures buffer[..] == fat[at..at + SECTOR]
  {
    var index := 0;
    while index < SECTOR
      invariant 0 <= index <= SECTOR && buffer[..index] == fat[at..at + index]
    {
      buffer[index] := fat[at + index];
      index := index + 1;
    }
  }

  /** One turn of the loop. */
  method WriteBoth(drive: Drive, fat: array<byte>, buffer: array<byte>, b: Bpb, sector: nat,
                   ghost d: seq<seq<byte>>, ghost table: seq<byte>)
    requires fat.Length == TABLE && buffer.Length == SECTOR && fat != buffer && fat[..] == table
    requires sector < b.fatSize <= 12 && Fits(b, |d|) && drive.sectors == Copied(d, b, table, sector)
    modifies drive, buffer
    ensures drive.sectors == Copied(d, b, table, sector + 1)
  {
    CopySector(fat, SECTOR * sector, buffer);
    CopiedNext(d, b, table, sector);
    drive.Write(sector + b.reserved, buffer);
    if b.fats == 2 {
      drive.Write(sector + b.reserved + b.fatSize, buffer);
    }
  }

  /** Lines 151 to 167 */
  method WriteTable(drive: Drive, fat: array<byte>, buffer: array<byte>, b: Bpb)
    requires fat.Length == TABLE && buffer.Length == SECTOR && fat != buffer
    requires b.fatSize <= 12 && Fits(b, |drive.sectors|)
    modifies drive, buffer
    ensures drive.sectors == Copied(old(drive.sectors), b, fat[..], b.fatSize)
  {
    ghost var d, table := drive.sectors, fat[..];
    var sector := 0;
    while sector < b.fatSize
      invariant 0 <= sector <= b.fatSize && fat[..] == table
      invariant drive.sectors == Copied(d, b, table, sector)
    {
      WriteBoth(drive, fat, buffer, b, sector, d, table);
      sector := sector + 1;
    }
  }

  method RecordBadClusters12(drive: Drive, list: BadList, fat: array<byte>, buffer: array<byte>, b: Bpb)
    returns (o: Outcome)
    requires list.Valid() && fat.Length == TABLE && buffer.Length == SECTOR && fat != buffer
    requires 1 <= b.reserved && b.fatSize <= 12 && Fits(b, |drive.sectors|)
    requires Listed(list.Contents(), FirstData(b), b.perCluster)
    requires FirstData(b) <= list.bads[0] ==>
      InTable(Clusters(list.Contents(), FirstData(b), b.perCluster))
    modifies drive, fat, buffer
    ensures o.Unusable? <==> list.bads[0] < FirstData(b)
    ensures o.Unusable? ==> o.part == Failure(list.bads[0], b) && drive.sectors == old(drive.sectors)
    ensures o.Recorded? ==>
      var cs := Clusters(list.Contents(), FirstData(b), b.perCluster);
      && fat[..] == Table12(b.media, cs, |cs|) && o.units == Changes(cs, |cs|)
      && drive.sectors == Copied(old(drive.sectors), b, fat[..], b.fatSize)
  {
    if list.bads[0] < FirstData(b) {
      return Unusable(Failure(list.bads[0], b));
    }
    var units := Mark12(list, fat, b.media, FirstData(b), b.perCluster,
                        Clusters(list.Contents(), FirstData(b), b.perCluster));
    WriteTable(drive, fat, buffer, b);
    return Recorded(units);
  }

  // ----- 16 bits -----

  function Zeros(): (z: seq<byte>)
    ensures |z| == SECTOR
  {
    seq(SECTOR, i => 0)
  }

  /** FAT sector `k`, with the first `n` clusters of the list marked in it. */
  ghost function Sector16(cs: seq<int>, n: nat, k: nat): (t: seq<byte>)
    requires n <= |cs|
    ensures |t| == SECTOR
    decreases n, cs
  {
    if n == 0 then Zeros()
    else
      var t, c := Sector16(cs, n - 1, k), cs[n - 1];
      if 256 * k <= c <= 256 * k + 255 then t[2 * (c % 256) := 0xf7][2 * (c % 256) + 1 := 0xff] else t
  }

  lemma Halves()
    ensures Half(0, 0) == 0 && Half(0xf7, 0xff) == 0xfff7
  {
  }

  lemma MarkedHalf(t: seq<byte>, i: nat, j: nat)
    requires |t| == SECTOR && i < 256 && j < 256
    ensures Entry16(t[2 * i := 0xf7][2 * i + 1 := 0xff], j) == if j == i then 0xfff7 else Entry16(t, j)
  {
    Halves();
  }

  lemma InSector(c: int, k: nat, j: nat)
    requires j < 256
    ensures c == 256 * k + j <==> 256 * k <= c <= 256 * k + 255 && c % 256 == j
  {
  }

  lemma {:induction false} Sector16Marks(cs: seq<int>, n: nat, k: nat, j: nat)
    requires n <= |cs| && j < 256
    ensures Entry16(Sector16(cs, n, k), j) == if Among(cs, n, 256 * k + j) then 0xfff7 else 0
    decreases n
  {
    if n == 0 {
      Halves();
    } else {
      var c := cs[n - 1];
      Sector16Marks(cs, n - 1, k, j);
      AmongNext(cs, n, 256 * k + j);
      InSector(c, k, j);
      MarkedHalf(Sector16(cs, n - 1, k), c % 256, j);
    }
  }

  ghost predicate Dirty(cs: seq<int>, k: nat) {
    exists i :: 0 <= i < |cs| && 256 * k <= cs[i] <= 256 * k + 255
  }

  /** The first `n` clusters of a list lie below `bound`, the others do not. */
  ghost predicate Split(cs: seq<int>, n: nat, bound: nat) {
    && n <= |cs|
    && (forall i :: 0 <= i < n ==> cs[i] < bound)
    && (forall i :: n <= i < |cs| ==> bound <= cs[i])
  }

  lemma {:induction false} NothingYet(cs: seq<int>, n: nat, k: nat, m: nat)
    requires Split(cs, n, 256 * k) && m <= n
    ensures Sector16(cs, m, k) == Zeros()
    decreases m
  {
    if m > 0 { NothingYet(cs, n, k, m - 1); }
  }

  lemma {:induction false} NothingMore(cs: seq<int>, n: nat, k: nat, m: nat)
    requires Split(cs, n, 256 * k + 256) && n <= m <= |cs|
    ensures Sector16(cs, m, k) == Sector16(cs, n, k)
    decreases m
  {
    if m > n { NothingMore(cs, n, k, m - 1); }
  }

  ghost function Headed(t: seq<byte>, b: Bpb, sector: nat): (r: seq<byte>)
    requires 4 <= |t|
    ensures |r| == |t|
  {
    if sector == 1 then t[0 := b.media][1 := 0xff][2 := 0xff][3 := 0xff] else t
  }

  /** What is written for FAT sector `k`; the initial entries go in when it is sector 1 of the disk. */
  ghost function Final16(b: Bpb, cs: seq<int>, k: nat): (t: seq<byte>)
    ensures |t| == SECTOR
  {
    Headed(Sector16(cs, |cs|, k), b, b.reserved + k)
  }

  /** The disk after the first `n` FAT sectors have been gone through. */
  ghost function Recorded16(d: seq<seq<byte>>, b: Bpb, cs: seq<int>, n: nat): (r: seq<seq<byte>>)
    requires Fits(b, |d|) && n <= b.fatSize
    ensures |r| == |d|
    decreases n, cs
  {
    if n == 0 then d
    else
      var r := Recorded16(d, b, cs, n - 1);
      if Dirty(cs, n - 1) then Twice(r, b, n - 1, Final16(b, cs, n - 1)) else r
  }

  /** The number of FAT sectors the outer loop goes through: it stops at sector number `fatSize` of the disk. */
  function Covered(b: Bpb): nat {
    if b.reserved <= b.fatSize then b.fatSize - b.reserved + 1 else 1
  }

  lemma {:induction false} Recorded16Sectors(d: seq<seq<byte>>, b: Bpb, cs: seq<int>, n: nat, s: nat)
    requires Fits(b, |d|) && n <= b.fatSize && s < |d|
    ensures Recorded16(d, b, cs, n)[s] ==
            if b.reserved <= s < b.reserved + n && Dirty(cs, s - b.reserved) then Final16(b, cs, s - b.reserved)
            else if b.fats == 2 && b.reserved + b.fatSize <= s < b.reserved + b.fatSize + n
                 && Dirty(cs, s - b.reserved - b.fatSize) then Final16(b, cs, s - b.reserved - b.fatSize)
            else d[s]
    decreases n
  {
    if n > 0 { Recorded16Sectors(d, b, cs, n - 1, s); }
  }

  /** Entry `c` of the FAT that begins at sector `start`. */
  ghost function FatEntry16(d: seq<seq<byte>>, start: nat, c: nat): bv16
    requires Formatted(d) && start + c / 256 < |d|
  {
    Entry16(d[start + c / 256], c % 256)
  }

  lemma {:induction false} Recorded16Formatted(d: seq<seq<byte>>, b: Bpb, cs: seq<int>, n: nat)
    requires Fits(b, |d|) && n <= b.fatSize && Formatted(d)
    ensures Formatted(Recorded16(d, b, cs, n))
    decreases n
  {
    if n > 0 { Recorded16Formatted(d, b, cs, n - 1); }
  }

  lemma Final16Marks(b: Bpb, cs: seq<int>, k: nat, j: nat)
    requires 1 <= b.reserved && j < 256 && 2 <= 256 * k + j
    ensures Entry16(Final16(b, cs, k), j) == if 256 * k + j in cs then 0xfff7 else 0
    ensures 256 * k + j in cs ==> Dirty(cs, k)
  {
    Sector16Marks(cs, |cs|, k, j);
  }

  /** A sector that was clear at entry `j` and has been written, or has not. */
  lemma MarkedOrClear(b: Bpb, cs: seq<int>, k: nat, j: nat, c: nat, was: seq<byte>, now: seq<byte>, covered: bool)
    requires 1 <= b.reserved && j < 256 && 2 <= c == 256 * k + j && |was| == |now| == SECTOR && Entry16(was, j) == 0
    requires now == if covered && Dirty(cs, k) then Final16(b, cs, k) else was
    ensures Entry16(now, j) == if c in cs && covered then 0xfff7 else 0
  {
    Final16Marks(b, cs, k, j);
  }

  lemma InFirstFat(d: seq<seq<byte>>, b: Bpb, cs: seq<int>, n: nat, k: nat)
    requires Fits(b, |d|) && n <= b.fatSize && k < b.fatSize
    ensures Recorded16(d, b, cs, n)[b.reserved + k]
         == if k < n && Dirty(cs, k) then Final16(b, cs, k) else d[b.reserved + k]
  {
    Recorded16Sectors(d, b, cs, n, b.reserved + k);
  }

  lemma InSecondFat(d: seq<seq<byte>>, b: Bpb, cs: seq<int>, n: nat, k: nat)
    requires Fits(b, |d|) && n <= b.fatSize && k < b.fatSize && b.fats == 2
    ensures Recorded16(d, b, cs, n)[b.reserved + b.fatSize + k]
         == if k < n && Dirty(cs, k) then Final16(b, cs, k) else d[b.reserved + b.fatSize + k]
  {
    Recorded16Sectors(d, b, cs, n, b.reserved + b.fatSize + k);
  }

  lemma Recorded16Sector(d: seq<seq<byte>>, b: Bpb, cs: seq<int>, k: nat, start: nat)
    requires Fits(b, |d|) && 1 <= b.reserved && k < b.fatSize
    requires start == b.reserved || (b.fats == 2 && start == b.reserved + b.fatSize)
    ensures Recorded16(d, b, cs, Covered(b))[start + k]
         == if k < Covered(b) && Dirty(cs, k) then Final16(b, cs, k) else d[start + k]
  {
    if start == b.reserved {
      InFirstFat(d, b, cs, Covered(b), k);
    } else {
      InSecondFat(d, b, cs, Covered(b), k);
    }
  }

  /**
   * On a cleared FAT every cluster the loops cover ends up marked exactly when it is listed, and every other
   * one stays clear, in each FAT that is written.
   */
  lemma Recorded16Marks(d: seq<seq<byte>>, b: Bpb, cs: seq<int>, c: nat, start: nat)
    requires Fits(b, |d|) && Formatted(d) && 1 <= b.reserved && 1 <= b.fatSize && 2 <= c < 256 * b.fatSize
    requires start == b.reserved || (b.fats == 2 && start == b.reserved + b.fatSize)
    requires FatEntry16(d, start, c) == 0
    ensures Formatted(Recorded16(d, b, cs, Covered(b)))
    ensures FatEntry16(Recorded16(d, b, cs, Covered(b)), start, c)
         == if c in cs && c / 256 < Covered(b) then 0xfff7 else 0
  {
    var k, j := c / 256, c % 256;
    Recorded16Formatted(d, b, cs, Covered(b));
    Recorded16Sector(d, b, cs, k, start);
    MarkedOrClear(b, cs, k, j, c, d[start + k], Recorded16(d, b, cs, Covered(b))[start + k], k < Covered(b));
  }

  /**
   * All listed clusters are marked exactly when the loops get to the FAT sector of each. With one reserved
   * sector they always do; every further reserved sector costs the last sector of the FAT.
   */
  lemma CoveredIff(d: seq<seq<byte>>, b: Bpb, cs: seq<int>)
    requires Fits(b, |d|) && Formatted(d) && 1 <= b.reserved && 1 <= b.fatSize
    requires forall i :: 0 <= i < |cs| ==> 2 <= cs[i] < 256 * b.fatSize
    requires forall c :: 2 <= c < 256 * b.fatSize ==> FatEntry16(d, b.reserved, c) == 0
    ensures Formatted(Recorded16(d, b, cs, Covered(b)))
    ensures (forall i :: 0 <= i < |cs| ==> FatEntry16(Recorded16(d, b, cs, Covered(b)), b.reserved, cs[i]) == 0xfff7)
       <==> (forall i :: 0 <= i < |cs| ==> cs[i] / 256 < Covered(b))
    ensures b.reserved == 1 ==> forall i :: 0 <= i < |cs| ==> cs[i] / 256 < Covered(b)
  {
    Recorded16Formatted(d, b, cs, Covered(b));
    forall i | 0 <= i < |cs|
      ensures FatEntry16(Recorded16(d, b, cs, Covered(b)), b.reserved, cs[i]) == 0xfff7 <==> cs[i] / 256 < Covered(b)
    {
      assert cs[i] in cs;
      Recorded16Marks(d, b, cs, cs[i], b.reserved);
    }
  }

  /** Two reserved sectors and 32 per FAT: cluster 8000 has its entry in the last one, and stays clear. */
  lemma SecondReservedSectorCosts(d: seq<seq<byte>>, b: Bpb)
    requires b == Bpb(2, 2, 32, 512, 4, 0xf8) && Fits(b, |d|) && Formatted(d)
    requires FatEntry16(d, 2, 8000) == 0 && FatEntry16(d, 34, 8000) == 0
    ensures Formatted(Recorded16(d, b, [8000], Covered(b)))
    ensures FatEntry16(Recorded16(d, b, [8000], Covered(b)), 2, 8000) == 0
    ensures FatEntry16(Recorded16(d, b, [8000], Covered(b)), 34, 8000) == 0
  {
    Recorded16Marks(d, b, [8000], 8000, 2);
    Recorded16Marks(d, b, [8000], 8000, 34);
  }

  /** What entries 0 and 1 of a FAT are to hold. */
  function Header(b: Bpb): seq<byte> {
    [b.media, 0xff, 0xff, 0xff]
  }

  lemma {:induction false} NoHeader(cs: seq<int>, n: nat)
    requires n <= |cs| && forall i :: 0 <= i < |cs| ==> 2 <= cs[i]
    ensures Sector16(cs, n, 0)[..4] == [0, 0, 0, 0]
    decreases n
  {
    if n > 0 { NoHeader(cs, n - 1); }
  }

  ghost function HeadAfter(b: Bpb, cs: seq<int>, head: seq<byte>): seq<byte> {
    if !Dirty(cs, 0) then head else if b.reserved == 1 then Header(b) else [0, 0, 0, 0]
  }

  lemma FirstSectorHead(b: Bpb, cs: seq<int>, was: seq<byte>, now: seq<byte>)
    requires 1 <= b.reserved && |was| == SECTOR && forall i :: 0 <= i < |cs| ==> 2 <= cs[i]
    requires now == if Dirty(cs, 0) then Final16(b, cs, 0) else was
    ensures now[..4] == HeadAfter(b, cs, was[..4])
  {
    NoHeader(cs, |cs|);
    var t := Sector16(cs, |cs|, 0);
    assert Headed(t, b, b.reserved)[..4] == if b.reserved == 1 then Header(b) else t[..4];
  }

  lemma HeaderStays(b: Bpb, cs: seq<int>, head: seq<byte>)
    requires forall i :: 0 <= i < |cs| ==> 2 <= cs[i]
    ensures head == Header(b) ==>
      (HeadAfter(b, cs, head) == Header(b) <==> b.reserved == 1 || forall i :: 0 <= i < |cs| ==> 256 <= cs[i])
  {
    assert Header(b)[1] != [0, 0, 0, 0][1];
  }

  /**
   * Entries 0 and 1 are rewritten when a cluster of the first FAT sector is listed: with their initial values for one
   * reserved sector, with zeros for more. So they stay right exactly when there is one reserved sector or no cluster
   * below 256 is listed.
   */
  lemma HeaderIff(d: seq<seq<byte>>, b: Bpb, cs: seq<int>, start: nat)
    requires Fits(b, |d|) && Formatted(d) && 1 <= b.reserved && 1 <= b.fatSize
    requires start == b.reserved || (b.fats == 2 && start == b.reserved + b.fatSize)
    requires forall i :: 0 <= i < |cs| ==> 2 <= cs[i]
    ensures Formatted(Recorded16(d, b, cs, Covered(b)))
    ensures Recorded16(d, b, cs, Covered(b))[start][..4] == HeadAfter(b, cs, d[start][..4])
    ensures d[start][..4] == Header(b) ==>
      (Recorded16(d, b, cs, Covered(b))[start][..4] == Header(b) <==>
       b.reserved == 1 || forall i :: 0 <= i < |cs| ==> 256 <= cs[i])
  {
    Recorded16Formatted(d, b, cs, Covered(b));
    Recorded16Sector(d, b, cs, 0, start);
    FirstSectorHead(b, cs, d[start], Recorded16(d, b, cs, Covered(b))[start]);
    HeaderStays(b, cs, d[start][..4]);
  }

  /** On the same volume cluster 100 costs entries 0 and 1 of both FATs. */
  lemma HeaderLost(d: seq<seq<byte>>, b: Bpb)
    requires b == Bpb(2, 2, 32, 512, 4, 0xf8) && Fits(b, |d|) && Formatted(d)
    ensures Formatted(Recorded16(d, b, [100], Covered(b)))
    ensures Recorded16(d, b, [100], Covered(b))[2][..4] == [0, 0, 0, 0]
    ensures Recorded16(d, b, [100], Covered(b))[34][..4] == [0, 0, 0, 0]
  {
    HeaderIff(d, b, [100], 2);
    HeaderIff(d, b, [100], 34);
    assert [100][0] == 100;
  }

  ghost predicate Plain(cs: seq<int>) {
    forall i :: 0 <= i < |cs| ==> 2 <= cs[i] < 0xffff
  }

  /** The clusters before `index` have been counted, perhaps also the one at `index` that was only looked at. */
  ghost predicate Seen(cs: seq<int>, index: nat, last: int, units: nat)
    requires index <= |cs|
  {
    Plain(cs) ==> (last, units) == Counted(cs, index) || (index < |cs| && (last, units) == Counted(cs, index + 1))
  }

  /** The FAT sectors before the k-th have been gone through. */
  ghost predicate Through(now: seq<seq<byte>>, d: seq<seq<byte>>, b: Bpb, cs: seq<int>, k: nat,
                          index: nat, last: int, units: nat)
  {
    && Fits(b, |d|) && k <= b.fatSize && now == Recorded16(d, b, cs, k)
    && Split(cs, index, 256 * k) && Seen(cs, index, last, units)
  }

  method ClearSectorBuffer(buffer: array<byte>)
    requires buffer.Length == SECTOR
    modifies buffer
    ensures buffer[..] == Zeros()
  {
    var i := 0;
    while i < SECTOR
      invariant 0 <= i <= SECTOR && forall q :: 0 <= q < i ==> buffer[q] == 0
    {
      buffer[i] := 0;
      i := i + 1;
    }
  }

  /** Lines 268 to 283 */
  method WriteFatSector(drive: Drive, buffer: array<byte>, b: Bpb, currentFatSector: nat)
    requires buffer.Length == SECTOR && Fits(b, |drive.sectors|)
    requires b.reserved <= currentFatSector < b.reserved + b.fatSize
    modifies drive, buffer
    ensures drive.sectors == Twice(old(drive.sectors), b, currentFatSector - b.reserved,
                                   Headed(old(buffer[..]), b, currentFatSector))
    ensures buffer[..] == Zeros()
  {
    if currentFatSector == 1 {
      buffer[0], buffer[1], buffer[2], buffer[3] := b.media, 0xff, 0xff, 0xff;
    }
    drive.Write(currentFatSector, buffer);
    if b.fats == 2 {
      drive.Write(currentFatSector + b.fatSize, buffer);
    }
    ClearSectorBuffer(buffer);
  }

  lemma SplitHere(cs: seq<int>, n: nat, bound: nat)
    requires Nondecreasing(cs) && n <= |cs|
    requires (0 < n ==> cs[n - 1] < bound) && (n < |cs| ==> bound <= cs[n])
    ensures Split(cs, n, bound)
  {
  }

  lemma DirtyIff(cs: seq<int>, m: nat, n: nat, k: nat)
    requires m <= n && Split(cs, m, 256 * k) && Split(cs, n, 256 * k + 256)
    ensures Dirty(cs, k) <==> m < n
  {
    if m < n { assert 256 * k <= cs[m] <= 256 * k + 255; }
  }

  /** When the next cluster lies behind sector `k`, all of the sector's clusters have been marked. */
  lemma SectorDone(cs: seq<int>, m: nat, n: nat, k: nat)
    requires Nondecreasing(cs) && Split(cs, m, 256 * k) && m <= n <= |cs|
    requires (0 < n ==> cs[n - 1] <= 256 * k + 255) && (n < |cs| ==> 256 * k + 255 < cs[n])
    ensures Sector16(cs, |cs|, k) == Sector16(cs, n, k) && (n == m ==> Sector16(cs, n, k) == Zeros())
    ensures (Dirty(cs, k) <==> m < n) && Split(cs, n, 256 * k + 256)
  {
    SplitHere(cs, n, 256 * k + 256);
    DirtyIff(cs, m, n, k);
    NothingYet(cs, m, k, m);
    NothingMore(cs, n, k, |cs|);
  }

  /** Lines 243 to 250 */
  method Count(badCluster: int, index: nat, l: int, u: nat, ghost cs: seq<int>)
    returns (lastBadCluster: int, units: nat)
    requires index <= |cs| && Seen(cs, index, l, u) && badCluster == if index < |cs| then cs[index] else 100000
    ensures Seen(cs, index, lastBadCluster, units)
    ensures index < |cs| ==> Seen(cs, index + 1, lastBadCluster, units)
  {
    lastBadCluster, units := l, u;
    if badCluster != lastBadCluster && badCluster != 100000 {
      lastBadCluster, units := badCluster, units + 1;
    }
  }

  /** Lines 231 to 241 */
  method NextCluster(list: BadList, index: nat, first: nat, perCluster: nat, ghost cs: seq<int>)
    returns (badCluster: int)
    requires Feeds(list, first, perCluster, cs) && index <= list.length
    ensures index < |cs| ==> badCluster == cs[index] && list.bads[index] != 0
    ensures index == |cs| ==> badCluster == 100000 && list.bads[index] == 0
  {
    badCluster := 100000;
    if list.bads[index] != 0 {
      assert list.bads[index] == list.Contents()[index];
      badCluster := ClusterOf(list.bads[index], first, perCluster);
    }
  }

  method MarkHalf(buffer: array<byte>, j: nat)
    requires buffer.Length == SECTOR && j < 256
    modifies buffer
    ensures buffer[..] == old(buffer[..])[2 * j := 0xf7][2 * j + 1 := 0xff]
  {
    buffer[2 * j] := 0xf7;
    buffer[2 * j + 1] := 0xff;
  }

  /** One turn of the inner loop, and whether there is another one. */
  method Visit(list: BadList, buffer: array<byte>, first: nat, perCluster: nat, k: nat, index: nat, l: int, u: nat,
               ghost cs: seq<int>)
    returns (next: nat, more: bool, lastBadCluster: int, units: nat)
    requires buffer.Length == SECTOR && k < 256 && index <= |cs|
    requires Feeds(list, first, perCluster, cs)
    requires (index < |cs| ==> 256 * k <= cs[index]) && Seen(cs, index, l, u)
    requires buffer[..] == Sector16(cs, index, k)
    modifies buffer
    ensures next == if index < |cs| && cs[index] < 256 * k + 256 then index + 1 else index
    ensures buffer[..] == Sector16(cs, next, k)
    ensures Seen(cs, next, lastBadCluster, units)
    ensures more <==> index < next < |cs|
  {
    var low := 256 * k;
    var high := low + 255;
    var badSectorMapIndex := index;
    var badCluster := NextCluster(list, index, first, perCluster, cs);
    lastBadCluster, units := Count(badCluster, index, l, u, cs);
    if low <= badCluster <= high {
      MarkHalf(buffer, badCluster % 256);
      badSectorMapIndex := badSectorMapIndex + 1;
    }
    more := badCluster <= high && list.bads[badSectorMapIndex] != 0;
    next := badSectorMapIndex;
  }

  /** Lines 226 to 264: all listed clusters of one FAT sector. */
  method FillSector(list: BadList, buffer: array<byte>, first: nat, perCluster: nat, k: nat,
                    index: nat, l: int, u: nat, ghost cs: seq<int>)
    returns (dirty: bool, next: nat, last: int, units: nat)
    requires buffer.Length == SECTOR && buffer[..] == Zeros() && k < 256
    requires Feeds(list, first, perCluster, cs) && Nondecreasing(cs)
    requires Split(cs, index, 256 * k) && Seen(cs, index, l, u)
    modifies buffer
    ensures buffer[..] == Sector16(cs, |cs|, k) && (dirty <==> Dirty(cs, k)) && (!dirty ==> buffer[..] == Zeros())
    ensures Split(cs, next, 256 * k + 256) && Seen(cs, next, last, units)
  {
    NothingYet(cs, index, k, index);
    var badSectorMapIndex, lastBadCluster, u, more := index, l, u, true;
    dirty := false;
    while more
      invariant index <= badSectorMapIndex <= |cs| && (dirty <==> index < badSectorMapIndex)
      invariant badSectorMapIndex > 0 ==> cs[badSectorMapIndex - 1] < 256 * k + 256
      invariant buffer[..] == Sector16(cs, badSectorMapIndex, k)
      invariant Seen(cs, badSectorMapIndex, lastBadCluster, u)
      invariant !more && badSectorMapIndex < |cs| ==> 256 * k + 255 < cs[badSectorMapIndex]
      decreases |cs| - badSectorMapIndex, more
    {
      var next, m, l', u' := Visit(list, buffer, first, perCluster, k, badSectorMapIndex, lastBadCluster, u, cs);
      if badSectorMapIndex < next {
        dirty := true;
      }
      badSectorMapIndex, more, lastBadCluster, u := next, m, l', u';
    }
    SectorDone(cs, index, badSectorMapIndex, k);
    return dirty, badSectorMapIndex, lastBadCluster, u;
  }

  /** One turn of the outer loop. */
  method RecordSector(drive: Drive, list: BadList, buffer: array<byte>, b: Bpb, first: nat, perCluster: nat,
                      currentFatSector: nat, index: nat, l: int, u: nat,
                      ghost cs: seq<int>, ghost d: seq<seq<byte>>, ghost k: nat)
    returns (next: nat, last: int, units: nat)
    requires buffer.Length == SECTOR && Nondecreasing(cs) && buffer[..] == Zeros()
    requires currentFatSector == b.reserved + k && k < b.fatSize <= 256
    requires Feeds(list, first, perCluster, cs) && Through(drive.sectors, d, b, cs, k, index, l, u)
    modifies drive, buffer
    ensures Through(drive.sectors, d, b, cs, k + 1, next, last, units) && buffer[..] == Zeros()
  {
    var dirtySectorBuffer;
    dirtySectorBuffer, next, last, units :=
      FillSector(list, buffer, first, perCluster, currentFatSector - b.reserved, index, l, u, cs);
    if dirtySectorBuffer {
      WriteFatSector(drive, buffer, b, currentFatSector);
    }
  }

  /** Every cluster of the list has its entry in a FAT sector below the bound. */
  ghost predicate WithinReach(cs: seq<int>, bound: nat) {
    Plain(cs) && forall i :: 0 <= i < |cs| ==> cs[i] < bound
  }

  lemma AllSeen(cs: seq<int>, index: nat, last: int, units: nat, bound: nat)
    requires Split(cs, index, bound) && Seen(cs, index, last, units)
    ensures WithinReach(cs, bound) ==> units == Changes(cs, |cs|)
  {
    if index < |cs| { assert bound <= cs[index]; }
  }

  /** Lines 216 to 287: FAT sector after FAT sector. */
  method FillSectors(drive: Drive, list: BadList, buffer: array<byte>, b: Bpb, first: nat, perCluster: nat,
                     ghost cs: seq<int>)
    returns (units: nat)
    requires buffer.Length == SECTOR && Nondecreasing(cs)
    requires 1 <= b.reserved && 1 <= b.fatSize <= 256 && Fits(b, |drive.sectors|)
    requires Feeds(list, first, perCluster, cs)
    modifies drive, buffer
    ensures drive.sectors == Recorded16(old(drive.sectors), b, cs, Covered(b))
    ensures WithinReach(cs, 256 * Covered(b)) ==> units == Changes(cs, |cs|)
  {
    ghost var d := drive.sectors;
    ClearSectorBuffer(buffer);
    var lastBadCluster, badSectorMapIndex, u := 0xffff, 0, 0;
    var currentFatSector := b.reserved;
    ghost var k := 0;
    while true
      invariant 0 <= k < Covered(b) && currentFatSector == b.reserved + k && buffer[..] == Zeros()
      invariant Through(drive.sectors, d, b, cs, k, badSectorMapIndex, lastBadCluster, u)
      invariant Feeds(list, first, perCluster, cs)
      decreases Covered(b) - k
    {
      badSectorMapIndex, lastBadCluster, u :=
        RecordSector(drive, list, buffer, b, first, perCluster, currentFatSector,
                     badSectorMapIndex, lastBadCluster, u, cs, d, k);
      currentFatSector := currentFatSector + 1;
      k := k + 1;
      if !(currentFatSector <= b.fatSize) { break; }
    }
    assert k == Covered(b);
    AllSeen(cs, badSectorMapIndex, lastBadCluster, u, 256 * k);
    return u;
  }

  /** The list must be in order; a cluster below the sector being filled would never be passed. */
  method RecordBadClusters16(drive: Drive, list: BadList, buffer: array<byte>, b: Bpb) returns (o: Outcome)
    requires list.Valid() && buffer.Length == SECTOR
    requires 1 <= b.reserved && 1 <= b.fatSize <= 256 && Fits(b, |drive.sectors|)
    requires Listed(list.Contents(), FirstData(b), b.perCluster) && Nondecreasing(list.Contents())
    modifies drive, buffer
    ensures o.Unusable? <==> list.bads[0] < FirstData(b)
    ensures o.Unusable? ==> o.part == Failure(list.bads[0], b) && drive.sectors == old(drive.sectors)
    ensures o.Recorded? ==>
      var cs := Clusters(list.Contents(), FirstData(b), b.perCluster);
      && drive.sectors == Recorded16(old(drive.sectors), b, cs, Covered(b))
      && (WithinReach(cs, 256 * Covered(b)) ==> o.units == Changes(cs, |cs|))
  {
    if list.bads[0] < FirstData(b) {
      return Unusable(Failure(list.bads[0], b));
    }
    ghost var cs := Clusters(list.Contents(), FirstData(b), b.perCluster);
    ClustersSorted(list.Contents(), FirstData(b), b.perCluster);
    var units := FillSectors(drive, list, buffer, b, FirstData(b), b.perCluster, cs);
    return Recorded(units);
  }
}
