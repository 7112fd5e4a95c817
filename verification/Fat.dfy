/** Volume geometry, FAT entries and the list of bad sectors, shared by the files of format/. */
module Fat {
  import opened Bytes
  import opened Commons

  const SECTOR := 512
  const MAX_BAD := 1024

  /** The fields of the BIOS parameter block the bad-cluster code reads. */
  datatype Bpb = Bpb(reserved: nat, fats: nat, fatSize: nat, rootEntries: nat, perCluster: nat, media: byte)

  function FirstRoot(b: Bpb): nat {
    b.reserved + b.fats * b.fatSize
  }

  /** The first data sector as recordbc.c computes it. */
  function FirstData(b: Bpb): nat {
    FirstRoot(b) + 32 * b.rootEntries / SECTOR
  }

  /** The first data sector as bcread.c computes it. */
  function ClusterStart(b: Bpb): nat {
    FirstRoot(b) + (b.rootEntries + 15) / 16
  }

  lemma DataBehindBoot(b: Bpb)
    requires 0 < b.reserved
    ensures 0 < FirstRoot(b) && 0 < ClusterStart(b)
  {
  }

  /** Reader and writer of the list agree on where data starts exactly for a root directory of whole sectors. */
  lemma StartsAgree(b: Bpb)
    ensures ClusterStart(b) == FirstData(b) <==> b.rootEntries % 16 == 0
  {
  }

  /** The cluster recordbc.c takes sector `s` to lie in: it rounds up. */
  function ClusterOf(s: nat, first: nat, perCluster: nat): (c: nat)
    requires first <= s && 0 < perCluster
  {
    (s - first + perCluster - 1) / perCluster + 2
  }

  function SectorOf(c: nat, first: nat, perCluster: nat): nat
    requires 2 <= c
  {
    first + (c - 2) * perCluster
  }

  /**
   * Sector `s` is attributed to the cluster that contains it exactly when it is that cluster's first one;
   * any other sector is attributed to the cluster after it.
   */
  lemma RoundsUp(s: nat, first: nat, perCluster: nat, c: nat)
    requires 0 < perCluster && 2 <= c && SectorOf(c, first, perCluster) <= s < SectorOf(c + 1, first, perCluster)
    ensures ClusterOf(s, first, perCluster) == if s == SectorOf(c, first, perCluster) then c else c + 1
  {
    var x, q := s - first, c - 2;
    assert SectorOf(c + 1, first, perCluster) == first + (q + 1) * perCluster;
    if x == q * perCluster {
      Quotient(x + perCluster - 1, perCluster, q);
    } else {
      assert (q + 2) * perCluster == q * perCluster + perCluster + perCluster;
      assert (q + 1) * perCluster == q * perCluster + perCluster;
      Quotient(x + perCluster - 1, perCluster, q + 1);
    }
  }

  /** What bcread.c lists for a cluster is translated back to that cluster. */
  lemma ClusterOfSector(c: nat, first: nat, perCluster: nat)
    requires 0 < perCluster && 2 <= c
    ensures ClusterOf(SectorOf(c, first, perCluster), first, perCluster) == c
  {
    assert SectorOf(c + 1, first, perCluster) == first + (c - 2) * perCluster + perCluster;
    RoundsUp(SectorOf(c, first, perCluster), first, perCluster, c);
  }

  lemma ClusterOfMonotone(s: nat, t: nat, first: nat, perCluster: nat)
    requires first <= s <= t && 0 < perCluster
    ensures ClusterOf(s, first, perCluster) <= ClusterOf(t, first, perCluster)
  {
    var x, y := s - first + perCluster - 1, t - first + perCluster - 1;
    var p, q := x / perCluster, y / perCluster;
    assert p * perCluster <= x && y < (q + 1) * perCluster;
    Times(q + 1, p, perCluster);
  }

  /** A sector in the middle of a cluster: the cluster after it is marked instead. */
  lemma RoundingMissesCluster()
    ensures SectorOf(2, 100, 4) < 101 < SectorOf(3, 100, 4) && ClusterOf(101, 100, 4) == 3
  {
  }

  /** What a FAT entry says of its cluster. */
  datatype Kind = Free | Used | Last | Bad

  function KindOf12(e: bv16): Kind {
    if e > 0xff7 then Last else if e > 0xff0 then Bad else if e > 0 then Used else Free
  }

  function KindOf16(e: bv16): Kind {
    if e > 0xfff7 then Last else if e >= 0xfff0 then Bad else if e > 0 then Used else Free
  }

  /** The four high bits are not looked at. */
  function KindOf32(e: word): Kind {
    var m := e & 0x0fff_ffff;
    if m > 0x0fff_fff7 then Last else if m >= 0x0fff_fff0 then Bad else if m > 0 then Used else Free
  }

  function Half(lo: byte, hi: byte): bv16 {
    ((hi as bv16) << 8) | (lo as bv16)
  }

  /** An entry that begins with a whole byte. */
  function EvenEntry(lo: byte, hi: byte): bv16 {
    (((hi & 0x0f) as bv16) << 8) | (lo as bv16)
  }

  /** An entry that ends with a whole byte. */
  function OddEntry(lo: byte, hi: byte): bv16 {
    ((hi as bv16) << 4) | ((lo >> 4) as bv16)
  }

  /** Entry `c` of a FAT with 12-bit entries: two entries share three bytes. */
  function Entry12(t: seq<byte>, c: nat): bv16
    requires c * 3 / 2 + 1 < |t|
  {
    var i := c * 3 / 2;
    if c % 2 == 0 then EvenEntry(t[i], t[i + 1]) else OddEntry(t[i], t[i + 1])
  }

  /** Entry `j` of a sector with 16-bit entries. */
  function Entry16(sector: seq<byte>, j: nat): bv16
    requires 2 * j + 1 < |sector|
  {
    Half(sector[2 * j], sector[2 * j + 1])
  }

  /** Entry `j` of a sector with 32-bit entries. */
  function Entry32(sector: seq<byte>, j: nat): word
    requires 4 * j + 3 < |sector|
  {
    Word(sector[4 * j], sector[4 * j + 1], sector[4 * j + 2], sector[4 * j + 3])
  }

  /** Too long a list loses its last element to the next one. */
  function Pushed(list: seq<int>, x: int): (r: seq<int>)
    requires |list| <= MAX_BAD
    ensures |r| <= MAX_BAD
  {
    if |list| == MAX_BAD then list[..MAX_BAD - 1] + [x] else list + [x]
  }

  ghost predicate Nondecreasing(s: seq<int>) {
    forall i, j :: 0 <= i < j < |s| ==> s[i] <= s[j]
  }

  /** The global list of bad sectors, ended by a zero, and the place where the next one goes. */
  class BadList {
    var bads: array<int>
    var count: nat
    ghost var length: nat

    ghost predicate Valid()
      reads this, bads
    {
      && bads.Length == MAX_BAD + 1 && length <= MAX_BAD
      && (forall i :: 0 <= i < length ==> 0 < bads[i])
      && (forall i :: length <= i <= MAX_BAD ==> bads[i] == 0)
    }

    ghost function Contents(): (s: seq<int>)
      reads this, bads
      requires Valid()
      ensures |s| == length
    {
      bads[..length]
    }

    /** bcread.c lets the place go to the end of a full list, uformat.c leaves it on the last element. */
    ghost predicate AtEnd()
      reads this, bads
    {
      Valid() && count == length
    }

    ghost predicate BeforeEnd()
      reads this, bads
    {
      Valid() && count == if length == MAX_BAD then MAX_BAD - 1 else length
    }

    constructor ()
      ensures AtEnd() && BeforeEnd() && Contents() == [] && fresh(bads)
    {
      bads := new int[MAX_BAD + 1](_ => 0);
      count, length := 0, 0;
    }

    /** bcread.c: check_too_bad and the store after it. A full list gives up its last element. */
    method Push(x: int)
      requires AtEnd() && 0 < x
      modifies this`count, this`length, bads
      ensures AtEnd() && bads == old(bads) && Contents() == Pushed(old(Contents()), x)
    {
      if count == MAX_BAD {
        count := count - 1;
      }
      bads[count] := x;
      count := count + 1;
      length := count;
    }

    /** uformat.c, lines 221 to 229: the place goes back when it has passed the last element. */
    method Note(x: int)
      requires BeforeEnd() && 0 < x
      modifies this`count, this`length, bads
      ensures BeforeEnd() && bads == old(bads) && Contents() == Pushed(old(Contents()), x)
    {
      bads[count] := x;
      count := count + 1;
      length := count;
      if count >= MAX_BAD {
        count := count - 1;
      }
    }
  }

  ghost predicate Formatted(sectors: seq<seq<byte>>) {
    forall s :: 0 <= s < |sectors| ==> |sectors[s]| == SECTOR
  }

  /** The disk, without errors. */
  class Drive {
    var sectors: seq<seq<byte>>

    method Read(first: nat, n: nat, buf: array<byte>)
      requires Formatted(sectors) && first + n <= |sectors| && SECTOR * n <= buf.Length
      modifies buf
      ensures forall i :: 0 <= i < SECTOR * n ==> buf[i] == sectors[first + i / SECTOR][i % SECTOR]
      ensures forall i :: SECTOR * n <= i < buf.Length ==> buf[i] == old(buf[i])
    {
      var k := 0;
      while k < SECTOR * n
        invariant 0 <= k <= SECTOR * n
        invariant forall i :: 0 <= i < k ==> buf[i] == sectors[first + i / SECTOR][i % SECTOR]
        invariant forall i :: k <= i < buf.Length ==> buf[i] == old(buf[i])
      {
        buf[k] := sectors[first + k / SECTOR][k % SECTOR];
        k := k + 1;
      }
    }

    method Write(s: nat, buf: array<byte>)
      requires s < |sectors| && buf.Length == SECTOR
      modifies this
      ensures sectors == old(sectors)[s := buf[..]]
    {
      sectors := sectors[s := buf[..]];
    }
  }
}
