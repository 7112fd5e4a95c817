/** Reading bad clusters and recording them again: what FORMAT as a whole does to a FAT. */
module BadClusterLaws {
  import opened Bytes
  import opened Commons
  import opened Fat
  import opened BcRead
  import opened RecordBc
  import opened SurfaceScan
  import opened RecordBc32

  // ----- lists made from clusters -----

  /** The sectors listed for clusters are translated back to these clusters. */
  lemma ClustersOfSectors(clusters: seq<int>, first: nat, perCluster: nat)
    requires 0 < perCluster && forall i :: 0 <= i < |clusters| ==> 2 <= clusters[i]
    ensures var list := Sectors(clusters, first, perCluster);
            AtLeast(list, first) && Clusters(list, first, perCluster) == clusters
  {
    var list := Sectors(clusters, first, perCluster);
    forall i | 0 <= i < |clusters|
      ensures first <= list[i] && ClusterOf(list[i], first, perCluster) == clusters[i]
    {
      ClusterOfSector(clusters[i], first, perCluster);
    }
    assert Clusters(list, first, perCluster) == clusters;
  }

  // ----- 12 bits -----

  /** The bytes of a FAT of `n` sectors from `start` on, with zeros behind it. */
  ghost function FatBytes(d: seq<seq<byte>>, start: nat, n: nat): (t: seq<byte>)
    requires Formatted(d) && start + n <= |d|
    ensures |t| == 21 * SECTOR
  {
    seq(21 * SECTOR, i requires 0 <= i < 21 * SECTOR =>
      if i < SECTOR * n then d[start + i / SECTOR][i % SECTOR] else 0)
  }

  ghost predicate IsBad12(t: seq<byte>, c: nat)
    requires c * 3 / 2 + 1 < |t|
  {
    KindOf12(Entry12(t, c)).Bad?
  }

  lemma CopiedSector(d: seq<seq<byte>>, d': seq<seq<byte>>, b: Bpb, table: seq<byte>, start: nat, k: nat)
    requires b.fatSize <= 12 && SECTOR * b.fatSize <= |table| && Fits(b, |d'|)
    requires d' == Copied(d, b, table, b.fatSize)
    requires start == b.reserved || (b.fats == 2 && start == b.reserved + b.fatSize)
    requires k < b.fatSize
    ensures d'[start + k] == table[SECTOR * k..SECTOR * k + SECTOR]
  {
  }

  lemma CopiedByte(d: seq<seq<byte>>, d': seq<seq<byte>>, b: Bpb, table: seq<byte>, start: nat, i: nat)
    requires Formatted(d') && b.fatSize <= 12 && SECTOR * b.fatSize <= |table| && Fits(b, |d'|)
    requires d' == Copied(d, b, table, b.fatSize)
    requires start == b.reserved || (b.fats == 2 && start == b.reserved + b.fatSize)
    requires i < SECTOR * b.fatSize
    ensures FatBytes(d', start, b.fatSize)[i] == table[i]
  {
    var k, j := i / SECTOR, i % SECTOR;
    CopiedSector(d, d', b, table, start, k);
    assert d'[start + k][j] == table[SECTOR * k..SECTOR * k + SECTOR][j] == table[SECTOR * k + j];
  }

  /** A FAT written from a table holds its entries. */
  lemma CopiedEntry(d: seq<seq<byte>>, d': seq<seq<byte>>, b: Bpb, table: seq<byte>, start: nat, c: nat)
    requires Formatted(d') && b.fatSize <= 12 && SECTOR * b.fatSize <= |table| && Fits(b, |d'|)
    requires d' == Copied(d, b, table, b.fatSize)
    requires start == b.reserved || (b.fats == 2 && start == b.reserved + b.fatSize)
    requires c * 3 / 2 + 1 < SECTOR * b.fatSize
    ensures Entry12(FatBytes(d', start, b.fatSize), c) == Entry12(table, c)
  {
    CopiedByte(d, d', b, table, start, c * 3 / 2);
    CopiedByte(d, d', b, table, start, c * 3 / 2 + 1);
  }

  lemma CopiedFormatted(d: seq<seq<byte>>, d': seq<seq<byte>>, b: Bpb, table: seq<byte>)
    requires Formatted(d) && b.fatSize <= 12 && SECTOR * b.fatSize <= |table|
    requires d' == Copied(d, b, table, b.fatSize)
    ensures Formatted(d')
  {
  }

  lemma ListOf12(t: seq<byte>, list: seq<int>, b: Bpb)
    requires |t| == 21 * SECTOR && 0 < b.perCluster && b.rootEntries % 16 == 0
    requires list == Scan(Kinds12(t), 4080, [], ClusterStart(b), b.perCluster).list
    requires |BadClusters(Kinds12(t), 4080)| <= MAX_BAD
    ensures AtLeast(list, FirstData(b)) && Clusters(list, FirstData(b), b.perCluster) == BadClusters(Kinds12(t), 4080)
    ensures InTable(BadClusters(Kinds12(t), 4080)) && |list| == |BadClusters(Kinds12(t), 4080)|
  {
    var clusters := BadClusters(Kinds12(t), 4080);
    ListIs(Kinds12(t), 4080, [], ClusterStart(b), b.perCluster);
    assert [] + Sectors(clusters, ClusterStart(b), b.perCluster) == Sectors(clusters, ClusterStart(b), b.perCluster);
    StartsAgree(b);
    ClustersOfSectors(clusters, FirstData(b), b.perCluster);
  }

  /** The list read from the old FAT is one the recording accepts, and stands for the bad clusters. */
  method Preserve12(drive: Drive, buf: array<byte>, list: BadList, b: Bpb, ghost t: seq<byte>)
    requires list.AtEnd() && list.Contents() == [] && buf.Length == 21 * SECTOR
    requires Formatted(drive.sectors) && 1 <= b.reserved && b.fatSize <= 12 && Fits(b, |drive.sectors|)
    requires 0 < b.perCluster && b.rootEntries % 16 == 0
    requires forall i :: SECTOR * b.fatSize <= i < buf.Length ==> buf[i] == 0
    requires t == FatBytes(drive.sectors, b.reserved, b.fatSize)
    requires 1 <= |BadClusters(Kinds12(t), 4080)| <= MAX_BAD
    modifies buf, list, list.bads
    ensures list.Valid() && FirstData(b) <= list.bads[0] && list.bads == old(list.bads)
    ensures 0 < b.perCluster && AtLeast(list.Contents(), FirstData(b))
    ensures Clusters(list.Contents(), FirstData(b), b.perCluster) == BadClusters(Kinds12(t), 4080)
    ensures InTable(BadClusters(Kinds12(t), 4080))
  {
    var end, used, bad, items, last := BadClustPreserve12(drive, buf, list, b);
    assert buf[..] == t;
    ListOf12(t, list.Contents(), b);
    assert list.bads[0] == list.Contents()[0];
  }

  /** Within `size` bytes of FAT the bad clusters of `t` are marked in `t'` and the others are free. */
  ghost predicate Remarked(t: seq<byte>, t': seq<byte>, size: nat)
    requires |t| == |t'| == 21 * SECTOR
  {
    forall c :: 2 <= c < 4080 && c * 3 / 2 + 1 < size ==> Entry12(t', c) == if IsBad12(t, c) then 0xff7 else 0
  }

  lemma RemarkedBy(t: seq<byte>, d: seq<seq<byte>>, d': seq<seq<byte>>, b: Bpb, start: nat, table: seq<byte>,
                   clusters: seq<int>)
    requires |t| == 21 * SECTOR && clusters == BadClusters(Kinds12(t), 4080) && InTable(clusters)
    requires table == Table12(b.media, clusters, |clusters|)
    requires Formatted(d') && b.fatSize <= 12 && Fits(b, |d'|) && d' == Copied(d, b, table, b.fatSize)
    requires start == b.reserved || (b.fats == 2 && start == b.reserved + b.fatSize)
    ensures Remarked(t, FatBytes(d', start, b.fatSize), SECTOR * b.fatSize)
  {
    BadClustersAre(Kinds12(t), 4080);
    forall c | 2 <= c < 4080 && c * 3 / 2 + 1 < SECTOR * b.fatSize
      ensures Entry12(FatBytes(d', start, b.fatSize), c) == if IsBad12(t, c) then 0xff7 else 0
    {
      CopiedEntry(d, d', b, table, start, c);
      Table12Marks(b.media, clusters, |clusters|, c);
      assert c in clusters <==> IsBad12(t, c);
    }
  }

  lemma RoundTrip12(t: seq<byte>, d: seq<seq<byte>>, b: Bpb, clusters: seq<int>, d': seq<seq<byte>>)
    requires |t| == 21 * SECTOR && clusters == BadClusters(Kinds12(t), 4080) && InTable(clusters)
    requires Formatted(d) && b.fatSize <= 12 && Fits(b, |d|)
    requires d' == Copied(d, b, Table12(b.media, clusters, |clusters|), b.fatSize)
    ensures Formatted(d') && Remarked(t, FatBytes(d', b.reserved, b.fatSize), SECTOR * b.fatSize)
    ensures b.fats == 2 ==> Remarked(t, FatBytes(d', b.reserved + b.fatSize, b.fatSize), SECTOR * b.fatSize)
  {
    var table := Table12(b.media, clusters, |clusters|);
    CopiedFormatted(d, d', b, table);
    if b.fats == 2 {
      var second := b.reserved + b.fatSize;
      RemarkedBy(t, d, d', b, second, table, clusters);
    }
    RemarkedBy(t, d, d', b, b.reserved, table, clusters);
  }

  /**
   * Safe quick format on 12 bits: the list made from the old FAT, recorded in a new one. In every FAT that is
   * written, exactly the clusters 2..4079 that were bad are marked, and all others are free.
   */
  method PreserveAndRecord12(drive: Drive, buf: array<byte>, list: BadList, fat: array<byte>, buffer: array<byte>,
                             b: Bpb)
    returns (o: Outcome)
    requires list.AtEnd() && list.Contents() == [] && buf.Length == 21 * SECTOR && fat.Length == TABLE
    requires buffer.Length == SECTOR && buf != fat && buf != buffer && fat != buffer
    requires Formatted(drive.sectors) && 1 <= b.reserved && b.fatSize <= 12 && Fits(b, |drive.sectors|)
    requires 0 < b.perCluster && b.rootEntries % 16 == 0
    requires forall i :: SECTOR * b.fatSize <= i < buf.Length ==> buf[i] == 0
    requires 1 <= |BadClusters(Kinds12(FatBytes(drive.sectors, b.reserved, b.fatSize)), 4080)| <= MAX_BAD
    modifies drive, buf, list, list.bads, fat, buffer
    ensures o.Recorded? && Formatted(drive.sectors) && |drive.sectors| == |old(drive.sectors)|
    ensures Remarked(FatBytes(old(drive.sectors), b.reserved, b.fatSize),
                     FatBytes(drive.sectors, b.reserved, b.fatSize), SECTOR * b.fatSize)
    ensures b.fats == 2 ==>
      Remarked(FatBytes(old(drive.sectors), b.reserved, b.fatSize),
               FatBytes(drive.sectors, b.reserved + b.fatSize, b.fatSize), SECTOR * b.fatSize)
  {
    ghost var d := drive.sectors;
    ghost var t := FatBytes(d, b.reserved, b.fatSize);
    ghost var clusters := BadClusters(Kinds12(t), 4080);
    Preserve12(drive, buf, list, b, t);
    o := RecordBadClusters12(drive, list, fat, buffer, b);
    RoundTrip12(t, d, b, clusters, drive.sectors);
  }

  // ----- 16 and 32 bits -----

  /** A list made by a scan is one the recording accepts, and stands for the bad clusters. */
  lemma ListStandsFor(kinds: seq<Kind>, n: nat, first: nat, perCluster: nat, list: seq<int>)
    requires n <= |kinds| && 0 < perCluster && |BadClusters(kinds, n)| <= MAX_BAD
    requires list == BcRead.Scan(kinds, n, [], first, perCluster).list
    ensures AtLeast(list, first) && Nondecreasing(list)
    ensures Clusters(list, first, perCluster) == BadClusters(kinds, n)
    ensures forall c :: c in BadClusters(kinds, n) <==> 2 <= c < n && kinds[c].Bad?
  {
    var clusters := BadClusters(kinds, n);
    var sectors := Sectors(clusters, first, perCluster);
    ListIs(kinds, n, [], first, perCluster);
    ScanIsSorted(kinds, n, first, perCluster);
    BadClustersAre(kinds, n);
    assert [] + sectors == sectors;
    ClustersOfSectors(clusters, first, perCluster);
  }

  lemma KindAt16(d: seq<seq<byte>>, b: Bpb, kinds: seq<Kind>, c: nat)
    requires Formatted(d) && b.reserved + b.fatSize <= |d| && kinds == Kinds16(d, b.reserved, b.fatSize)
    requires 2 <= c < 256 * b.fatSize
    ensures kinds[c] == KindOf16(FatEntry16(d, b.reserved, c))
  {
  }

  /**
   * The FAT12 round trip on 16 bits, where the FAT has been cleared (`d`) after its bad clusters were listed: exactly
   * the clusters that were bad are marked, in each FAT, as far as the recording gets; with one reserved sector that
   * is to the end.
   */
  lemma RoundTrip16(was: seq<seq<byte>>, d: seq<seq<byte>>, b: Bpb, kinds: seq<Kind>, list: seq<int>, c: nat, start: nat)
    requires Formatted(was) && Formatted(d) && |was| == |d| && Fits(b, |d|) && 1 <= b.reserved && 1 <= b.fatSize
    requires 0 < b.perCluster && b.rootEntries % 16 == 0 && kinds == Kinds16(was, b.reserved, b.fatSize)
    requires list == BcRead.Scan(kinds, |kinds|, [], ClusterStart(b), b.perCluster).list
    requires |BadClusters(kinds, |kinds|)| <= MAX_BAD
    requires start == b.reserved || (b.fats == 2 && start == b.reserved + b.fatSize)
    requires 2 <= c < 256 * b.fatSize && FatEntry16(d, start, c) == 0
    ensures AtLeast(list, FirstData(b)) && Nondecreasing(list)
    ensures var r := Recorded16(d, b, Clusters(list, FirstData(b), b.perCluster), Covered(b));
            && Formatted(r)
            && FatEntry16(r, start, c)
                == if c / 256 < Covered(b) && KindOf16(FatEntry16(was, b.reserved, c)).Bad? then 0xfff7 else 0
    ensures b.reserved == 1 ==> c / 256 < Covered(b)
  {
    StartsAgree(b);
    ListStandsFor(kinds, |kinds|, FirstData(b), b.perCluster, list);
    Recorded16Marks(d, b, Clusters(list, FirstData(b), b.perCluster), c, start);
    KindAt16(was, b, kinds, c);
  }

  lemma KindAt32(d: seq<seq<byte>>, b: Bpb, kinds: seq<Kind>, c: nat)
    requires Formatted(d) && b.reserved + b.fatSize <= |d| && kinds == Kinds32(d, b.reserved, b.fatSize)
    requires 2 <= c < 128 * b.fatSize
    ensures kinds[c] == KindOf32(FatEntry32(d, b.reserved, c))
  {
  }

  lemma Marked(d: seq<seq<byte>>, b: Bpb, cs: seq<int>, c: nat)
    requires Formatted(d) && Fits(b, |d|) && (forall x :: x in cs ==> 2 <= x < 128 * b.fatSize)
    requires c < 128 * b.fatSize && FatEntry32(d, b.reserved, c) == 0
    ensures InFat(b, cs)
    ensures FatEntry32(Recorded32(d, b, cs, |cs|), b.reserved, c) == if c in cs then 0x0fff_fff0 else 0
  {
    assert InFat(b, cs) by {
      forall i | 0 <= i < |cs| ensures 2 <= cs[i] && cs[i] / 128 < b.fatSize { assert cs[i] in cs; }
    }
    FirstFat(d, b, cs, |cs|, c);
    assert cs[..|cs|] == cs;
  }

  /** The same on 32 bits, for any number of reserved sectors; the mark written is itself read as bad. */
  lemma RoundTrip32(was: seq<seq<byte>>, d: seq<seq<byte>>, b: Bpb, kinds: seq<Kind>, list: seq<int>, c: nat)
    requires Formatted(was) && Formatted(d) && |was| == |d| && Fits(b, |d|) && 1 <= b.fatSize
    requires 0 < b.perCluster && kinds == Kinds32(was, b.reserved, b.fatSize)
    requires list == BcRead.Scan(kinds, |kinds|, [], FirstRoot(b), b.perCluster).list
    requires |BadClusters(kinds, |kinds|)| <= MAX_BAD
    requires 2 <= c < 128 * b.fatSize && FatEntry32(d, b.reserved, c) == 0
    ensures AtLeast(list, FirstRoot(b)) && InFat(b, Clusters(list, FirstRoot(b), b.perCluster))
    ensures var cs := Clusters(list, FirstRoot(b), b.perCluster);
            FatEntry32(Recorded32(d, b, cs, |cs|), b.reserved, c)
            == if KindOf32(FatEntry32(was, b.reserved, c)).Bad? then 0x0fff_fff0 else 0
    ensures KindOf32(0x0fff_fff0).Bad?
  {
    var cs := BadClusters(kinds, |kinds|);
    ListStandsFor(kinds, |kinds|, FirstRoot(b), b.perCluster, list);
    Marked(d, b, cs, c);
    KindAt32(was, b, kinds, c);
  }

  // ----- the surface scan -----

  /** The sectors attributed to cluster `c`: its first one and those of the cluster before that are not its first. */
  lemma AttributedTo(s: nat, first: nat, n: nat, c: nat)
    requires first <= s && 0 < n && 2 <= c
    ensures ClusterOf(s, first, n) == c <==> SectorOf(c, first, n) - n < s <= SectorOf(c, first, n)
  {
    var x, q := s - first + n - 1, c - 2;
    assert (q + 1) * n == q * n + n;
    if q * n <= x < (q + 1) * n {
      Quotient(x, n, q);
    } else {
      var p := x / n;
      assert p * n <= x < p * n + n;
    }
  }

  /** A sector the recording attributes to cluster `c` was found bad; data begin at sector `first`. */
  ghost predicate AttributedBad(m: Medium, max: nat, first: nat, n: nat, c: nat)
    requires 2 <= max && 2 <= c
  {
    exists s: nat :: first <= s && FoundBad(m, 1, max, s) && SectorOf(c, first, n) - n < s <= SectorOf(c, first, n)
  }

  /** The list holds all that the scan reported, and begins in the data area. */
  ghost predicate ScanListed(m: Medium, max: nat, list: seq<int>, first: nat)
    requires 2 <= max
  {
    |Reported(m, 1, max)| <= MAX_BAD && list == Kept(Reported(m, 1, max)) && AtLeast(list, first)
  }

  /** A cluster is listed exactly when a sector attributed to it was found bad. */
  lemma ListedIffFound(m: Medium, max: nat, list: seq<int>, first: nat, n: nat, c: nat)
    requires 2 <= max && ScanListed(m, max, list, first) && 0 < n && 2 <= c
    ensures c in Clusters(list, first, n) <==> AttributedBad(m, max, first, n, c)
    ensures Nondecreasing(list)
  {
    ReportedSorted(m, 1, max);
    var cs := Clusters(list, first, n);
    if c in cs {
      var i :| 0 <= i < |cs| && cs[i] == c;
      assert list[i] in list;
      ReportedAre(m, 1, max, list[i]);
      AttributedTo(list[i], first, n, c);
      assert AttributedBad(m, max, first, n, c);
    }
    if AttributedBad(m, max, first, n, c) {
      var s: nat :| first <= s && FoundBad(m, 1, max, s) && SectorOf(c, first, n) - n < s <= SectorOf(c, first, n);
      ReportedAre(m, 1, max, s);
      AttributedTo(s, first, n, c);
      var i :| 0 <= i < |list| && list[i] == s;
      assert cs[i] == c;
    }
  }

  /**
   * Scan and recording together, whatever transfers fail: a cluster ends up marked exactly when a sector attributed
   * to it was found bad. With one sector per cluster these are exactly the clusters that hold such a sector. Here on
   * 12 bits, in each FAT that is written.
   */
  lemma ScanIsRecorded12(m: Medium, max: nat, d: seq<seq<byte>>, d': seq<seq<byte>>, b: Bpb, list: seq<int>,
                         table: seq<byte>, c: nat, start: nat)
    requires 2 <= max && ScanListed(m, max, list, FirstData(b)) && 0 < b.perCluster
    requires Formatted(d') && b.fatSize <= 12 && Fits(b, |d'|)
    requires start == b.reserved || (b.fats == 2 && start == b.reserved + b.fatSize)
    requires InTable(Clusters(list, FirstData(b), b.perCluster))
    requires table == Table12(b.media, Clusters(list, FirstData(b), b.perCluster), |list|)
    requires d' == Copied(d, b, table, b.fatSize)
    requires 2 <= c <= 4095 && c * 3 / 2 + 1 < SECTOR * b.fatSize
    ensures Entry12(FatBytes(d', start, b.fatSize), c)
         == if AttributedBad(m, max, FirstData(b), b.perCluster, c) then 0xff7 else 0
  {
    var cs := Clusters(list, FirstData(b), b.perCluster);
    ListedIffFound(m, max, list, FirstData(b), b.perCluster, c);
    Table12Marks(b.media, cs, |cs|, c);
    CopiedEntry(d, d', b, table, start, c);
  }

  /** On 16 bits, as far as the recording gets. */
  lemma ScanIsRecorded16(m: Medium, max: nat, d: seq<seq<byte>>, b: Bpb, list: seq<int>, c: nat, start: nat)
    requires 2 <= max && ScanListed(m, max, list, FirstData(b)) && 0 < b.perCluster
    requires Formatted(d) && Fits(b, |d|) && 1 <= b.reserved && 1 <= b.fatSize
    requires start == b.reserved || (b.fats == 2 && start == b.reserved + b.fatSize)
    requires 2 <= c < 256 * b.fatSize && FatEntry16(d, start, c) == 0
    ensures Nondecreasing(list)
    ensures var r := Recorded16(d, b, Clusters(list, FirstData(b), b.perCluster), Covered(b));
            && Formatted(r)
            && FatEntry16(r, start, c)
                == if c / 256 < Covered(b) && AttributedBad(m, max, FirstData(b), b.perCluster, c) then 0xfff7 else 0
  {
    ListedIffFound(m, max, list, FirstData(b), b.perCluster, c);
    Recorded16Marks(d, b, Clusters(list, FirstData(b), b.perCluster), c, start);
  }

  /** On 32 bits, where entries that are marked already keep their value. */
  lemma ScanIsRecorded32(m: Medium, max: nat, d: seq<seq<byte>>, b: Bpb, list: seq<int>, cs: seq<int>, c: nat)
    requires 2 <= max && ScanListed(m, max, list, FirstRoot(b)) && 0 < b.perCluster
    requires Formatted(d) && Fits(b, |d|) && cs == Clusters(list, FirstRoot(b), b.perCluster) && InFat(b, cs)
    requires 2 <= c && c / 128 < b.fatSize
    ensures FatEntry32(Recorded32(d, b, cs, |cs|), b.reserved, c)
         == if AttributedBad(m, max, FirstRoot(b), b.perCluster, c) && !IsMarked(FatEntry32(d, b.reserved, c))
            then 0x0fff_fff0 else FatEntry32(d, b.reserved, c)
  {
    ListedIffFound(m, max, list, FirstRoot(b), b.perCluster, c);
    FirstFat(d, b, cs, |cs|, c);
    assert cs[..|cs|] == cs;
  }
}
