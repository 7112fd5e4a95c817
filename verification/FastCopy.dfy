/** diskcopy/fastcopy.c: which parts of a FAT12 diskette a fast copy has to read. */
module FastCopy {
  import opened Bytes
  import opened Commons
  import Fat
  import RecordBc

  /** The boot sector fields the copy looks at. */
  datatype Boot = Boot(bytesPerSector: nat, perCluster: nat, reserved: nat, fats: nat, files: nat, sectors: nat,
                       perFat: nat)

  function DataStart(b: Boot): nat {
    b.reserved + b.fats * b.perFat + b.files / 16
  }

  /** The cluster sector `s` is taken for when data are believed to begin at `start`. */
  function ClusterAt(n: nat, start: nat, s: nat): nat
    requires 0 < n && start <= s
  {
    (s + 2 * n - start) / n
  }

  /** The FAT entry for the cluster sector `s` is taken for can be read. */
  predicate InFat(n: nat, start: nat, fat: seq<byte>, s: nat) {
    0 < n && start <= s && ClusterAt(n, start, s) * 3 / 2 + 1 < |fat|
  }

  /** The cluster sector `s` is taken for is allocated; `n` is the cluster size. */
  ghost predicate Filled(n: nat, start: nat, fat: seq<byte>, s: nat) {
    InFat(n, start, fat, s) && Fat.Entry12(fat, ClusterAt(n, start, s)) != 0
  }

  /** With the right start of data, sectors are taken for the cluster that contains them. */
  lemma FilledMeansAllocated(n: nat, start: nat, fat: seq<byte>, s: nat, c: nat)
    requires 0 < n && 2 <= c && c * 3 / 2 + 1 < |fat|
    requires Fat.SectorOf(c, start, n) <= s < Fat.SectorOf(c + 1, start, n)
    ensures Filled(n, start, fat, s) <==> Fat.Entry12(fat, c) != 0
  {
    assert (c - 2) * n + 2 * n == c * n && (c + 1 - 2) * n + 2 * n == (c + 1) * n;
    Quotient(s + 2 * n - start, n, c);
  }

  /** The word test of lines 73 to 81 looks at one packed entry. */
  lemma LabelIsEntry(b0: byte, b1: byte)
    ensures Fat.Half(b0, b1) & 0x0fff == Fat.EvenEntry(b0, b1)
    ensures Fat.Half(b0, b1) & 0xfff0 != 0 <==> Fat.OddEntry(b0, b1) != 0
  {
  }

  ghost predicate HasFilled(n: nat, start: nat, fat: seq<byte>, first: nat, amount: nat) {
    exists s :: first <= s < first + amount && Filled(n, start, fat, s)
  }

  /** A block is read when it reaches into the system area, begins the data area, or has an allocated sector. */
  ghost predicate Required(n: nat, start: nat, fat: seq<byte>, first: nat, amount: nat) {
    first <= start || HasFilled(n, start, fat, first, amount)
  }

  // ----- blocks that must not be left out -----

  /** Sector `s` is in use: it belongs to the system area that ends at `data`, or to an allocated cluster. */
  ghost predicate InUse(n: nat, data: nat, fat: seq<byte>, s: nat) {
    s < data || Filled(n, data, fat, s)
  }

  /**
   * Where on a disk its own FAT lies, and where the FAT that the copy goes by: the boot record that is at hand may be
   * that of another diskette.
   */
  datatype Places = Places(own: nat, ownSize: nat, seen: nat, seenSize: nat)

  predicate OnDisk(p: Places, size: nat) {
    p.own + p.ownSize <= size && p.seen + p.seenSize <= size
  }

  function OwnFat(p: Places, disk: seq<byte>): (fat: seq<byte>)
    requires OnDisk(p, |disk|)
    ensures |fat| == p.ownSize
  {
    disk[p.own..p.own + p.ownSize]
  }

  function SeenFat(p: Places, disk: seq<byte>): (fat: seq<byte>)
    requires OnDisk(p, |disk|)
    ensures |fat| == p.seenSize
  {
    disk[p.seen..p.seen + p.seenSize]
  }

  /** How much later, in half bytes, the FAT begins that the copy goes by. */
  function Shift(p: Places): int {
    2 * (p.seen - p.own)
  }

  /**
   * With `start` in place of `data` and the FAT looked for `shift` half bytes later, the entries that are looked up
   * for the sectors of the block comprise those they belong to, and the block holds no system sector, or else it is
   * read anyway.
   */
  predicate Safe(n: nat, data: nat, start: nat, shift: int, first: nat, amount: nat)
    requires 0 < n && 0 < amount
  {
    || first <= start
    || (data <= first
        && 3 * ClusterAt(n, start, first) + shift <= 3 * ClusterAt(n, data, first)
        && 3 * ClusterAt(n, data, first + amount - 1) <= 3 * ClusterAt(n, start, first + amount - 1) + shift)
  }

  lemma NextQuotient(x: nat, n: nat)
    requires 0 < n
    ensures x / n <= (x + 1) / n <= x / n + 1
  {
    var p, r := x / n, x % n;
    assert x == p * n + r && (p + 1) * n == p * n + n;
    if r + 1 < n {
      Quotient(x + 1, n, p);
    } else {
      assert (p + 2) * n == (p + 1) * n + n;
      Quotient(x + 1, n, p + 1);
    }
  }

  /** From one sector to the next the cluster goes up by at most one. */
  lemma OneClusterOn(n: nat, start: nat, s: nat)
    requires 0 < n && start <= s
    ensures ClusterAt(n, start, s) <= ClusterAt(n, start, s + 1) <= ClusterAt(n, start, s) + 1
  {
    NextQuotient(s + 2 * n - start, n);
  }

  lemma {:induction false} BetweenClusters(n: nat, start: nat, first: nat, last: nat, c: nat) returns (s: nat)
    requires 0 < n && start <= first <= last
    requires ClusterAt(n, start, first) <= c <= ClusterAt(n, start, last)
    ensures first <= s <= last && ClusterAt(n, start, s) == c
    decreases last
  {
    s := last;
    if c < ClusterAt(n, start, last) {
      OneClusterOn(n, start, last - 1);
      s := BetweenClusters(n, start, first, last - 1, c);
    }
  }

  lemma {:induction false} ClusterMonotone(n: nat, start: nat, s: nat, t: nat)
    requires 0 < n && start <= s <= t
    ensures ClusterAt(n, start, s) <= ClusterAt(n, start, t)
    decreases t
  {
    if s < t {
      OneClusterOn(n, start, t - 1);
      ClusterMonotone(n, start, s, t - 1);
    }
  }

  /** If any sector of the block is in use by the one FAT, the block is read by the other. */
  ghost predicate ReadWhenUsed(n: nat, data: nat, start: nat, own: seq<byte>, seen: seq<byte>, first: nat, amount: nat) {
    (exists s :: first <= s < first + amount && InUse(n, data, own, s)) ==> Required(n, start, seen, first, amount)
  }

  /** Half a byte. The entries of a FAT have three each, one entry behind the other. */
  function Nibble(d: seq<byte>, i: nat): byte
    requires i / 2 < |d|
  {
    if i % 2 == 0 then d[i / 2] & 0x0f else d[i / 2] >> 4
  }

  lemma NibblesOfBytes(lo: byte, hi: byte)
    ensures Fat.EvenEntry(lo, hi) != 0 <==> lo & 0x0f != 0 || lo >> 4 != 0 || hi & 0x0f != 0
    ensures Fat.OddEntry(lo, hi) != 0 <==> lo >> 4 != 0 || hi & 0x0f != 0 || hi >> 4 != 0
  {
  }

  lemma NibblesAt(d: seq<byte>, b: nat)
    requires b < |d|
    ensures Nibble(d, 2 * b) == d[b] & 0x0f && Nibble(d, 2 * b + 1) == d[b] >> 4
  {
  }

  lemma EvenNibbles(fat: seq<byte>, k: nat)
    requires 3 * k + 1 < |fat|
    ensures Fat.Entry12(fat, 2 * k) != 0 <==>
            Nibble(fat, 6 * k) != 0 || Nibble(fat, 6 * k + 1) != 0 || Nibble(fat, 6 * k + 2) != 0
  {
    RecordBc.PlaceOf(2 * k, k, 0);
    RecordBc.EntryAt(fat, 2 * k, 3 * k);
    NibblesOfBytes(fat[3 * k], fat[3 * k + 1]);
    NibblesAt(fat, 3 * k);
    NibblesAt(fat, 3 * k + 1);
  }

  lemma OddNibbles(fat: seq<byte>, k: nat)
    requires 3 * k + 2 < |fat|
    ensures Fat.Entry12(fat, 2 * k + 1) != 0 <==>
            Nibble(fat, 6 * k + 3) != 0 || Nibble(fat, 6 * k + 4) != 0 || Nibble(fat, 6 * k + 5) != 0
  {
    RecordBc.PlaceOf(2 * k + 1, k, 1);
    RecordBc.EntryAt(fat, 2 * k + 1, 3 * k + 1);
    NibblesOfBytes(fat[3 * k + 1], fat[3 * k + 2]);
    NibblesAt(fat, 3 * k + 1);
    NibblesAt(fat, 3 * k + 2);
  }

  lemma EntryNibbles(fat: seq<byte>, c: nat)
    requires c * 3 / 2 + 1 < |fat|
    ensures Fat.Entry12(fat, c) != 0 <==>
            Nibble(fat, 3 * c) != 0 || Nibble(fat, 3 * c + 1) != 0 || Nibble(fat, 3 * c + 2) != 0
  {
    RecordBc.PlaceOf(c, c / 2, c % 2);
    if c % 2 == 0 {
      EvenNibbles(fat, c / 2);
    } else {
      OddNibbles(fat, c / 2);
    }
  }

  /** Some half byte of an entry in use is not zero. */
  lemma SomeNibble(fat: seq<byte>, c: nat) returns (i: nat)
    requires c * 3 / 2 + 1 < |fat| && Fat.Entry12(fat, c) != 0
    ensures 3 * c <= i <= 3 * c + 2 && i / 2 < |fat| && Nibble(fat, i) != 0
  {
    EntryNibbles(fat, c);
    i := if Nibble(fat, 3 * c) != 0 then 3 * c else if Nibble(fat, 3 * c + 1) != 0 then 3 * c + 1 else 3 * c + 2;
  }

  /** A half byte that is not zero puts the entry it belongs to in use. */
  lemma NibbleInUse(fat: seq<byte>, c: nat, i: nat)
    requires c * 3 / 2 + 1 < |fat| && 3 * c <= i <= 3 * c + 2 && Nibble(fat, i) != 0
    ensures Fat.Entry12(fat, c) != 0
  {
    EntryNibbles(fat, c);
  }

  lemma NibbleOfPart(disk: seq<byte>, at: nat, size: nat, i: nat)
    requires at + size <= |disk| && i / 2 < size
    ensures Nibble(disk[at..at + size], i) == Nibble(disk, 2 * at + i)
  {
  }

  lemma SameNibble(p: Places, disk: seq<byte>, i: nat, j: nat, d: nat)
    requires OnDisk(p, |disk|) && 2 * p.own + i == 2 * p.seen + j && i / 2 < p.ownSize && d * 3 / 2 + 1 < p.seenSize
    requires Nibble(OwnFat(p, disk), i) != 0 && 3 * d <= j <= 3 * d + 2
    ensures Fat.Entry12(SeenFat(p, disk), d) != 0
  {
    NibbleOfPart(disk, p.own, p.ownSize, i);
    NibbleOfPart(disk, p.seen, p.seenSize, j);
    NibbleInUse(SeenFat(p, disk), d, j);
  }

  /** An entry in use of the own FAT shows in the entries lo..hi of the FAT that is seen, if they comprise it. */
  lemma SeenEntry(p: Places, disk: seq<byte>, c: nat, lo: nat, hi: nat) returns (d: nat)
    requires OnDisk(p, |disk|) && c * 3 / 2 + 1 < p.ownSize && hi * 3 / 2 + 1 < p.seenSize
    requires 3 * lo + Shift(p) <= 3 * c <= 3 * hi + Shift(p) && Fat.Entry12(OwnFat(p, disk), c) != 0
    ensures lo <= d <= hi && Fat.Entry12(SeenFat(p, disk), d) != 0
  {
    var i := SomeNibble(OwnFat(p, disk), c);
    d := (i - Shift(p)) / 3;
    SameNibble(p, disk, i, i - Shift(p), d);
  }

  lemma SafeIsRead(n: nat, data: nat, start: nat, p: Places, disk: seq<byte>, first: nat, amount: nat)
    requires 0 < n && 0 < amount && OnDisk(p, |disk|) && Safe(n, data, start, Shift(p), first, amount)
    requires forall s :: first <= s < first + amount && start <= s ==> InFat(n, start, SeenFat(p, disk), s)
    ensures ReadWhenUsed(n, data, start, OwnFat(p, disk), SeenFat(p, disk), first, amount)
  {
    if s :| first <= s < first + amount && InUse(n, data, OwnFat(p, disk), s) {
      if start < first {
        var last := first + amount - 1;
        ClusterMonotone(n, data, first, s);
        ClusterMonotone(n, data, s, last);
        assert InFat(n, start, SeenFat(p, disk), last);
        var d := SeenEntry(p, disk, ClusterAt(n, data, s), ClusterAt(n, start, first), ClusterAt(n, start, last));
        var t := BetweenClusters(n, start, first, last, d);
        assert Filled(n, start, SeenFat(p, disk), t);
      }
    }
  }

  /** A disk that begins with `head` and is zero behind it. */
  function NothingElse(head: seq<byte>, size: nat): (disk: seq<byte>)
    requires |head| <= size
    ensures |disk| == size && head <= disk
  {
    head + seq(size - |head|, _ => 0 as byte)
  }

  lemma NothingSeen(n: nat, start: nat, p: Places, head: seq<byte>, size: nat, first: nat, amount: nat)
    requires start < first && OnDisk(p, size) && |head| <= p.seen && |head| <= size
    ensures !Required(n, start, SeenFat(p, NothingElse(head, size)), first, amount)
  {
    RecordBc.ZeroEntry();
  }

  /** The same but for one half byte. */
  function OneNibble(head: seq<byte>, size: nat, i: nat): (disk: seq<byte>)
    requires |head| <= i / 2 < size
    ensures |disk| == size && head <= disk
  {
    NothingElse(head, size)[i / 2 := if i % 2 == 0 then 0x01 else 0x10]
  }

  lemma OneNibbleIs(head: seq<byte>, size: nat, i: nat, j: nat)
    requires |head| <= i / 2 < size && |head| <= j / 2 < size
    ensures Nibble(OneNibble(head, size, i), j) != 0 <==> i == j
  {
  }

  lemma SeenNibble(p: Places, head: seq<byte>, size: nat, i: nat, j: nat)
    requires OnDisk(p, size) && |head| <= p.seen && |head| <= i / 2 < size && j / 2 < p.seenSize
    ensures Nibble(SeenFat(p, OneNibble(head, size, i)), j) != 0 <==> i == 2 * p.seen + j
  {
    NibbleOfPart(OneNibble(head, size, i), p.seen, p.seenSize, j);
    OneNibbleIs(head, size, i, 2 * p.seen + j);
  }

  /** An entry that does not comprise the one half byte is not in use. */
  lemma EntryNotInUse(p: Places, head: seq<byte>, size: nat, i: nat, c: nat)
    requires OnDisk(p, size) && |head| <= p.seen && |head| <= i / 2 < size && c * 3 / 2 + 1 < p.seenSize
    requires i < 2 * p.seen + 3 * c || 2 * p.seen + 3 * c + 2 < i
    ensures Fat.Entry12(SeenFat(p, OneNibble(head, size, i)), c) == 0
  {
    EntryNibbles(SeenFat(p, OneNibble(head, size, i)), c);
    SeenNibble(p, head, size, i, 3 * c);
    SeenNibble(p, head, size, i, 3 * c + 1);
    SeenNibble(p, head, size, i, 3 * c + 2);
  }

  /** What is looked up for a block, the entries from `lo` to `hi`, does not comprise the one half byte. */
  lemma NotSeen(n: nat, start: nat, p: Places, head: seq<byte>, size: nat, i: nat, first: nat, amount: nat, lo: nat, hi: nat)
    requires 0 < n && 0 < amount && start < first && OnDisk(p, size) && |head| <= p.seen && |head| <= i / 2 < size
    requires lo == ClusterAt(n, start, first) && hi == ClusterAt(n, start, first + amount - 1)
    requires i < 2 * p.seen + 3 * lo || 2 * p.seen + 3 * hi + 2 < i
    ensures !Required(n, start, SeenFat(p, OneNibble(head, size, i)), first, amount)
  {
    var fat := SeenFat(p, OneNibble(head, size, i));
    forall t | first <= t < first + amount ensures !Filled(n, start, fat, t) {
      ClusterMonotone(n, start, first, t);
      ClusterMonotone(n, start, t, first + amount - 1);
      if InFat(n, start, fat, t) { EntryNotInUse(p, head, size, i, ClusterAt(n, start, t)); }
    }
  }

  /** The one half byte puts a cluster in use. */
  lemma OneInUse(p: Places, head: seq<byte>, size: nat, c: nat, i: nat)
    requires OnDisk(p, size) && |head| <= p.own && c * 3 / 2 + 1 < p.ownSize && 3 * c <= i <= 3 * c + 2
    ensures (2 * p.own + i) / 2 < size
    ensures Fat.Entry12(OwnFat(p, OneNibble(head, size, 2 * p.own + i)), c) != 0
  {
    var disk := OneNibble(head, size, 2 * p.own + i);
    NibbleOfPart(disk, p.own, p.ownSize, i);
    OneNibbleIs(head, size, 2 * p.own + i, 2 * p.own + i);
    NibbleInUse(OwnFat(p, disk), c, i);
  }

  /** Sector `s` is in use, by the half byte `i` of its entry alone, and its block is not read. */
  lemma LostAt(n: nat, data: nat, start: nat, p: Places, head: seq<byte>, size: nat, first: nat, amount: nat,
               s: nat, c: nat, i: nat, lo: nat, hi: nat)
    requires 0 < n && start < first && data <= s && first <= s < first + amount && c == ClusterAt(n, data, s)
    requires lo == ClusterAt(n, start, first) && hi == ClusterAt(n, start, first + amount - 1)
    requires OnDisk(p, size) && |head| <= p.own && |head| <= p.seen
    requires c * 3 / 2 + 1 < p.ownSize && 3 * c <= i <= 3 * c + 2
    requires i < 3 * lo + Shift(p) || 3 * hi + Shift(p) + 2 < i
    ensures |head| <= (2 * p.own + i) / 2 < size
    ensures var disk := OneNibble(head, size, 2 * p.own + i);
            !ReadWhenUsed(n, data, start, OwnFat(p, disk), SeenFat(p, disk), first, amount)
  {
    OneInUse(p, head, size, c, i);
    NotSeen(n, start, p, head, size, 2 * p.own + i, first, amount, lo, hi);
    assert InUse(n, data, OwnFat(p, OneNibble(head, size, 2 * p.own + i)), s);
  }

  /** A block that is not safe is left out for some content of the disk although a sector of it is in use. */
  lemma UnsafeIsLost(n: nat, data: nat, start: nat, p: Places, head: seq<byte>, size: nat, first: nat, amount: nat)
    returns (disk: seq<byte>)
    requires 0 < n && 0 < amount && OnDisk(p, size) && |head| <= p.own && |head| <= p.seen && |head| < size
    requires !Safe(n, data, start, Shift(p), first, amount)
    requires forall s :: first <= s < first + amount && data <= s ==> ClusterAt(n, data, s) * 3 / 2 + 1 < p.ownSize
    ensures |disk| == size && head <= disk
    ensures !ReadWhenUsed(n, data, start, OwnFat(p, disk), SeenFat(p, disk), first, amount)
  {
    var last := first + amount - 1;
    if first < data {
      disk := NothingElse(head, size);
      NothingSeen(n, start, p, head, size, first, amount);
      assert InUse(n, data, OwnFat(p, disk), first);
    } else {
      var lo, hi := ClusterAt(n, start, first), ClusterAt(n, start, last);
      var low := 3 * lo + Shift(p) > 3 * ClusterAt(n, data, first);
      var s := if low then first else last;
      var c := ClusterAt(n, data, s);
      var i := if low then 3 * c else 3 * c + 2;
      LostAt(n, data, start, p, head, size, first, amount, s, c, i, lo, hi);
      disk := OneNibble(head, size, 2 * p.own + i);
    }
  }

  /**
   * A block is read for every content of the disk for which a sector of it is in use, if and only if it is safe. It
   * always is when start of data and place of the FAT are the right ones.
   */
  lemma ReadIffSafe(n: nat, data: nat, start: nat, p: Places, head: seq<byte>, size: nat, first: nat, amount: nat)
    requires 0 < n && 0 < amount && OnDisk(p, size) && |head| <= p.own && |head| <= p.seen && |head| < size
    requires forall s :: first <= s < first + amount && data <= s ==> ClusterAt(n, data, s) * 3 / 2 + 1 < p.ownSize
    requires forall s :: first <= s < first + amount && start <= s ==> ClusterAt(n, start, s) * 3 / 2 + 1 < p.seenSize
    ensures (forall disk: seq<byte> :: |disk| == size && head <= disk ==>
              ReadWhenUsed(n, data, start, OwnFat(p, disk), SeenFat(p, disk), first, amount))
       <==> Safe(n, data, start, Shift(p), first, amount)
    ensures start == data && p.seen == p.own ==> Safe(n, data, start, Shift(p), first, amount)
  {
    if Safe(n, data, start, Shift(p), first, amount) {
      forall disk: seq<byte> | |disk| == size && head <= disk
        ensures ReadWhenUsed(n, data, start, OwnFat(p, disk), SeenFat(p, disk), first, amount)
      {
        SafeIsRead(n, data, start, p, disk, first, amount);
      }
    } else {
      var disk := UnsafeIsLost(n, data, start, p, head, size, first, amount);
    }
  }

  /** A FAT of `size` bytes in which cluster `c` alone is allocated; none is when its entry does not fit. */
  function Alone(size: nat, c: nat): (fat: seq<byte>)
    ensures |fat| == size
  {
    var none := seq(size, _ => 0 as byte);
    if c * 3 / 2 + 1 < size then RecordBc.Packed(none, c) else none
  }

  lemma AloneIs(size: nat, c: nat, d: nat)
    requires d * 3 / 2 + 1 < size && c * 3 / 2 + 1 < size
    ensures Fat.Entry12(Alone(size, c), d) != 0 <==> d == c
  {
    RecordBc.PackedEntries(seq(size, _ => 0), c, d);
    RecordBc.ZeroEntry();
  }

  // ----- the size that is announced -----

  function Product(i: int, n: nat): int {
    i * n
  }

  /** Blocks are numbered from 0; this one is the first that lies behind the system area. */
  function FirstDataBlock(start: nat, m: nat): (c: nat)
    requires 0 < m
  {
    start / m + if start % m != 0 then 1 else 0
  }

  lemma FirstDataBlockIs(start: nat, m: nat)
    requires 0 < m
    ensures var c := FirstDataBlock(start, m);
            (forall i :: 0 <= i < c ==> Product(i, m) < start) && (forall i :: c <= i ==> start <= Product(i, m))
    ensures start % m == 0 ==> Product(FirstDataBlock(start, m), m) == start
    ensures start % m != 0 ==> start < Product(FirstDataBlock(start, m), m)
  {
    var q, r, c := start / m, start % m, FirstDataBlock(start, m);
    assert start == q * m + r;
    assert (q + 1) * m == q * m + m;
    forall i | 0 <= i < c ensures Product(i, m) < start {
      Times(i, if r == 0 then q - 1 else q, m);
      assert (q - 1) * m == q * m - m;
    }
    forall i | c <= i ensures start <= Product(i, m) {
      Times(c, i, m);
    }
  }

  /** How many of the first `k` blocks of `m` sectors a copy reads. */
  ghost function RequiredBlocks(n: nat, start: nat, fat: seq<byte>, m: nat, k: nat): nat {
    if k == 0 then 0
    else RequiredBlocks(n, start, fat, m, k - 1) + if Required(n, start, fat, (k - 1) * m, m) then 1 else 0
  }

  /** How many of the blocks lo..hi-1 have an allocated sector. */
  ghost function FilledBlocks(n: nat, start: nat, fat: seq<byte>, m: nat, lo: nat, hi: nat): nat
    decreases hi
  {
    if hi <= lo then 0
    else FilledBlocks(n, start, fat, m, lo, hi - 1) + if HasFilled(n, start, fat, (hi - 1) * m, m) then 1 else 0
  }

  /** Which blocks are read, told from the number of the block. */
  lemma RequiredBlock(n: nat, start: nat, fat: seq<byte>, m: nat, i: nat)
    requires 0 < m
    ensures Required(n, start, fat, i * m, m) <==>
      i < FirstDataBlock(start, m) || HasFilled(n, start, fat, i * m, m)
      || (i == FirstDataBlock(start, m) && start % m == 0)
  {
    var c := FirstDataBlock(start, m);
    FirstDataBlockIs(start, m);
    assert Product(i, m) == i * m && Product(c, m) == c * m;
    Times(c + 1, i, m);
    assert (c + 1) * m == c * m + m;
  }

  lemma {:induction false} RequiredAre(n: nat, start: nat, fat: seq<byte>, m: nat, c: nat, k: nat)
    requires 0 < m && c == FirstDataBlock(start, m)
    ensures k <= c ==> RequiredBlocks(n, start, fat, m, k) == k
    ensures c < k ==>
      (RequiredBlocks(n, start, fat, m, k) - (c + FilledBlocks(n, start, fat, m, c, k))
       == if start % m == 0 && !HasFilled(n, start, fat, c * m, m) then 1 else 0)
    decreases k
  {
    if k > 0 {
      RequiredAre(n, start, fat, m, c, k - 1);
      RequiredBlock(n, start, fat, m, k - 1);
    }
  }

  /**
   * The announced size is that of the blocks to be read exactly when the system area lies within the volume and
   * the data area does not begin on a block boundary with a block of free sectors.
   */
  lemma SizeIsExact(n: nat, start: nat, fat: seq<byte>, m: nat, c: nat, blocks: nat)
    requires 0 < m && c == FirstDataBlock(start, m)
    ensures (c + FilledBlocks(n, start, fat, m, c, blocks) == RequiredBlocks(n, start, fat, m, blocks))
       <==> (c <= blocks && !(start % m == 0 && c < blocks && !HasFilled(n, start, fat, c * m, m)))
  {
    RequiredAre(n, start, fat, m, c, blocks);
  }

  lemma NothingFilled(n: nat, start: nat, size: nat, first: nat, amount: nat)
    ensures !HasFilled(n, start, seq(size, _ => 0), first, amount)
  {
    RecordBc.ZeroEntry();
  }

  /** On an empty disk whose data begin on a block boundary, the block there is read but not announced. */
  lemma EmptyIsShort(n: nat, start: nat, size: nat, m: nat, c: nat, blocks: nat)
    requires 0 < m && start % m == 0 && c == FirstDataBlock(start, m) < blocks
    ensures c + FilledBlocks(n, start, seq(size, _ => 0), m, c, blocks) + 1
         == RequiredBlocks(n, start, seq(size, _ => 0), m, blocks)
  {
    NothingFilled(n, start, size, c * m, m);
    RequiredAre(n, start, seq(size, _ => 0), m, c, blocks);
  }

  /**
   * An empty 1440K diskette with a root directory of 208 entries: its data begin with block 1, which is read but
   * not announced.
   */
  lemma SizeIsShort(b: Boot, fat: seq<byte>, c: nat)
    requires b == Boot(512, 1, 1, 2, 208, 2880, 9) && fat == seq(4608, _ => 0) && c == FirstDataBlock(DataStart(b), 32)
    ensures forall s :: DataStart(b) <= s < b.sectors ==> InFat(b.perCluster, DataStart(b), fat, s)
    ensures b.sectors == 90 * 32
    ensures c + FilledBlocks(1, DataStart(b), fat, 32, c, 90) + 1 == RequiredBlocks(1, DataStart(b), fat, 32, 90)
  {
    EmptyIsShort(1, DataStart(b), 4608, 32, c, 90);
  }

  /** The sectors of the whole blocks lie on the volume. */
  lemma BlocksFit(sectors: nat, bytes: nat, blocksize: nat)
    requires 0 < bytes <= blocksize && blocksize % bytes == 0
    ensures var m, blocks := blocksize / bytes, sectors * bytes / blocksize; 0 < m && blocks * m <= sectors
  {
    var m, blocks := blocksize / bytes, sectors * bytes / blocksize;
    assert blocksize == m * bytes;
    assert blocks * blocksize <= sectors * bytes;
    assert blocks * (m * bytes) == (blocks * m) * bytes;
    Times(sectors + 1, blocks * m, bytes);
    assert (sectors + 1) * bytes == sectors * bytes + bytes;
  }

  /** Sectors in a block. */
  function PerBlock(b: Boot, blocksize: nat): (m: nat)
    requires 0 < b.bytesPerSector <= blocksize && blocksize % b.bytesPerSector == 0
    ensures 0 < m
  {
    BlocksFit(b.sectors, b.bytesPerSector, blocksize);
    blocksize / b.bytesPerSector
  }

  /** Whole blocks on the volume. */
  function Blocks(b: Boot, blocksize: nat): (k: nat)
    requires 0 < b.bytesPerSector <= blocksize && blocksize % b.bytesPerSector == 0
    ensures k * PerBlock(b, blocksize) <= b.sectors
  {
    BlocksFit(b.sectors, b.bytesPerSector, blocksize);
    b.sectors * b.bytesPerSector / blocksize
  }

  // ----- the functions of fastcopy.c -----

  /** What the decisions depend on. */
  datatype View = View(fast: bool, boot: Boot, start: nat, fat: seq<byte>)

  /** Whether a block is read. */
  ghost predicate Taken(v: View, first: nat, amount: nat) {
    !v.fast || Required(v.boot.perCluster, v.start, v.fat, first, amount)
  }

  /** The sectors lo..hi-1 have their entries in the FAT, as far as they can be asked about. */
  ghost predicate Readable(v: View, lo: nat, hi: nat) {
    v.fast ==> forall s :: lo <= s < hi && v.start <= s ==> InFat(v.boot.perCluster, v.start, v.fat, s)
  }

  /** The state of fastcopy.c: `start` is 0 until it has been worked out, and is never worked out again. */
  class FastCopier {
    var performFastCopy: bool
    var fatInfo: seq<byte>
    var bsect: Boot
    var start: nat

    /** The start of data that is used: the present boot sector's, or one worked out for an earlier diskette. */
    ghost function Start(): nat
      reads this
    {
      if start != 0 then start else DataStart(bsect)
    }

    ghost function Viewed(): View
      reads this
    {
      View(performFastCopy, bsect, Start(), fatInfo)
    }

    constructor ()
      ensures !performFastCopy && start == 0 && fatInfo == []
    {
      performFastCopy, fatInfo, start := false, [], 0;
      bsect := Boot(0, 0, 0, 0, 0, 0, 0);
    }

    method GetDataStart() returns (r: nat)
      modifies this`start
      ensures r == start == old(Start()) && Viewed() == old(Viewed())
    {
      if start == 0 {
        start := bsect.reserved + bsect.fats * bsect.perFat + bsect.files / 16;
      }
      return start;
    }

    method IsSectorFilled(sector: nat) returns (r: bool)
      requires InFat(bsect.perCluster, Start(), fatInfo, sector)
      modifies this`start
      ensures Viewed() == old(Viewed()) && start == old(Start())
      ensures r <==> Filled(bsect.perCluster, Start(), fatInfo, sector)
    {
      var datastart := GetDataStart();
      var cluster := (sector + 2 * bsect.perCluster - datastart) / bsect.perCluster;
      var at := cluster + cluster / 2;
      assert at == cluster * 3 / 2;
      LabelIsEntry(fatInfo[at], fatInfo[at + 1]);
      var entry := Fat.Half(fatInfo[at], fatInfo[at + 1]);
      if cluster % 2 == 0 {
        entry := entry & 0x0fff;
      } else {
        entry := entry & 0xfff0;
      }
      return entry != 0;
    }

    method AnyFilled(first: nat, amount: nat) returns (r: bool)
      requires forall s :: first <= s < first + amount ==> InFat(bsect.perCluster, Start(), fatInfo, s)
      requires start == Start()
      modifies this`start
      ensures Viewed() == old(Viewed()) && start == old(start)
      ensures r <==> HasFilled(bsect.perCluster, Start(), fatInfo, first, amount)
    {
      var i := 0;
      while i < amount
        invariant 0 <= i <= amount && Viewed() == old(Viewed()) && start == old(start)
        invariant forall s :: first <= s < first + i ==> !Filled(bsect.perCluster, Start(), fatInfo, s)
      {
        var filled := IsSectorFilled(first + i);
        if filled {
          return true;
        }
        i := i + 1;
      }
      return false;
    }

    /** In full mode the start of data is not looked at. */
    method IsDiskReadRequired(first: nat, amount: nat) returns (r: bool)
      requires Readable(Viewed(), first, first + amount)
      modifies this`start
      ensures Viewed() == old(Viewed()) && start == if performFastCopy then old(Start()) else old(start)
      ensures r <==> Taken(Viewed(), first, amount)
    {
      if !performFastCopy {
        return true;
      }
      var datastart := GetDataStart();
      if first <= datastart {
        return true;
      }
      var filled := AnyFilled(first, amount);
      return filled;
    }

    /** Lines 107 to 113 */
    method CountBlocks(lo: nat, hi: nat, m: nat) returns (count: nat)
      requires 0 < m && start == Start() && lo == FirstDataBlock(start, m)
      requires forall s :: start <= s < hi * m ==> InFat(bsect.perCluster, start, fatInfo, s)
      modifies this`start
      ensures Viewed() == old(Viewed()) && start == old(start)
      ensures count == FilledBlocks(bsect.perCluster, start, fatInfo, m, lo, hi)
    {
      count := 0;
      var i := lo;
      while i < hi
        invariant lo <= i && (i <= hi || i == lo) && Viewed() == old(Viewed()) && start == old(start)
        invariant count == FilledBlocks(bsect.perCluster, start, fatInfo, m, lo, i)
      {
        FirstDataBlockIs(start, m);
        assert start <= Product(i, m) == i * m;
        Times(i + 1, hi, m);
        assert (i + 1) * m == i * m + m;
        var filled := AnyFilled(i * m, m);
        if filled {
          count := count + 1;
        }
        i := i + 1;
      }
    }

    /** The block size is a multiple of the sector size, as the one of diskcopy is. */
    method GetDiskFilledSize(blocksize: nat) returns (size: nat)
      requires 0 < bsect.bytesPerSector <= blocksize && blocksize % bsect.bytesPerSector == 0
      requires Readable(Viewed(), 0, bsect.sectors)
      modifies this`start
      ensures Viewed() == old(Viewed()) && start == if performFastCopy then old(Start()) else old(start)
      ensures !performFastCopy ==> size == bsect.sectors * bsect.bytesPerSector
      ensures performFastCopy ==>
        var m := PerBlock(bsect, blocksize);
        var c := FirstDataBlock(Start(), m);
        size == (c + FilledBlocks(bsect.perCluster, Start(), fatInfo, m, c, Blocks(bsect, blocksize))) * blocksize
    {
      if !performFastCopy {
        return bsect.sectors * bsect.bytesPerSector;
      }
      var blocks := Blocks(bsect, blocksize);
      var m := PerBlock(bsect, blocksize);
      var datastart := GetDataStart();
      var count := datastart / m + if datastart % m != 0 then 1 else 0;
      var filled := CountBlocks(count, blocks, m);
      return (count + filled) * blocksize;
    }
  }
}
