/** The loops of debug/mktables.c that fill the assembler table and print it. */
module AsmWriter {
  import opened Commons
  import opened AsmTable
  import opened AsmLines

  /** `Overflow` and `TooBusy` end the program. */
  datatype Outcome = Done | Overflow | TooBusy

  /** The bytes of a variant's number, with the second escape byte. */
  function NumberBytes(v: Variant, n: nat): seq<int> {
    [Number(v, n) / 256, Number(v, n) % 256] + if v.xtra != 0 then [v.xtra] else []
  }

  lemma LineParts(s: seq<int>, head: seq<int>, add: seq<int>, body: seq<int>)
    ensures s + (head + (add + body)) == s + head + add + body
  {
  }

  ghost predicate LinesWellFormed(lines: seq<Line>, n: nat) {
    forall i :: 0 <= i < |lines| ==> LineWellFormed(lines[i], n)
  }

  ghost predicate IsNext(lines: seq<Line>, n: nat, k: nat, s: seq<int>, t: seq<int>)
    requires k < |lines|
  {
    s == TableBytes(lines, k, n) && t == TableBytes(lines, k + 1, n)
  }

  /** `ts` lists the tables of the first 0, 1, 2, ... lines. */
  ghost predicate Tables(lines: seq<Line>, n: nat, ts: seq<seq<int>>) {
    && |ts| == |lines| + 1
    && ts[0] == [] && (forall k :: 0 <= k < |lines| ==> IsNext(lines, n, k, ts[k], ts[k + 1]))
    && (forall i :: 0 <= i <= |lines| ==> |ts[i]| <= |ts[|lines|]|)
  }

  lemma LongerNext(lines: seq<Line>, k: nat, n: nat)
    requires 0 < k <= |lines|
    ensures |TableBytes(lines, k - 1, n)| <= |TableBytes(lines, k, n)|
  {
  }

  lemma {:induction false} Longer(lines: seq<Line>, i: nat, k: nat, n: nat)
    requires i <= k <= |lines|
    ensures |TableBytes(lines, i, n)| <= |TableBytes(lines, k, n)|
    decreases k
  {
    if i < k {
      Longer(lines, i, k - 1, n);
      LongerNext(lines, k, n);
    }
  }

  lemma TablesExist(lines: seq<Line>, n: nat) returns (ts: seq<seq<int>>)
    ensures Tables(lines, n, ts)
  {
    ts := seq(|lines| + 1, k requires 0 <= k <= |lines| => TableBytes(lines, k, n));
    forall i | 0 <= i <= |lines| ensures |ts[i]| <= |ts[|lines|]| {
      Longer(lines, i, |lines|, n);
    }
  }

  /** The first `k` tables end where the data of the next line begin. */
  ghost predicate Offsets(mnems: seq<int>, ts: seq<seq<int>>, k: nat) {
    |mnems| == k <= |ts| && forall i :: 0 <= i < k ==> mnems[i] == |ts[i]|
  }

  ghost predicate IsNextVariant(vs: seq<Variant>, n: nat, i: nat, s: seq<int>, t: seq<int>)
    requires i < |vs|
  {
    t == s + Encoded(vs[i], n)
  }

  ghost predicate VariantTables(vs: seq<Variant>, n: nat, ts: seq<seq<int>>) {
    && |ts| == |vs| + 1
    && (forall i :: 0 <= i < |vs| ==> IsNextVariant(vs, n, i, ts[i], ts[i + 1]))
    && (forall i :: 0 <= i <= |vs| ==> |ts[i]| <= |ts[|vs|]|)
  }

  lemma {:induction false} VariantTablesExist(vs: seq<Variant>, n: nat, s: seq<int>) returns (ts: seq<seq<int>>)
    ensures VariantTables(vs, n, ts) && ts[0] == s && ts[|vs|] == s + EncodedAll(vs, n)
    decreases vs
  {
    if vs == [] {
      ts := [s];
      assert s + [] == s;
    } else {
      var first := s + Encoded(vs[0], n);
      var rest := VariantTablesExist(vs[1..], n, first);
      ts := [s] + rest;
      forall i | 0 <= i < |vs| ensures IsNextVariant(vs, n, i, ts[i], ts[i + 1]) {
        if i > 0 { assert IsNextVariant(vs[1..], n, i - 1, rest[i - 1], rest[i]); }
      }
      assert s + (Encoded(vs[0], n) + EncodedAll(vs[1..], n)) == first + EncodedAll(vs[1..], n);
      forall i | 0 <= i <= |vs| ensures |ts[i]| <= |ts[|vs|]| {
        if i > 0 { assert ts[i] == rest[i - 1]; } else { assert |s| <= |rest[0]| <= |rest[|vs| - 1]|; }
      }
    }
  }

  class Table {
    const tab: array<int>
    var count: nat

    ghost predicate Valid()
      reads this, tab
    {
      && tab.Length == MAX_ASM_TAB && count <= MAX_ASM_TAB
      && (forall i :: 0 <= i < count ==> 0 <= tab[i] < 256)
      && (forall i :: count <= i < MAX_ASM_TAB ==> tab[i] == 0)
    }

    ghost function Contents(): (s: seq<int>)
      reads this, tab
      requires Valid()
      ensures |s| == count && Bytes(s)
    {
      tab[..count]
    }

    constructor ()
      ensures Valid() && Contents() == [] && fresh(tab)
    {
      tab := new int[MAX_ASM_TAB](_ => 0);
      count := 0;
    }

    /** The table holds `s`. */
    ghost predicate Holds(s: seq<int>)
      reads this, tab
    {
      Valid() && Contents() == s
    }

    /** add_to_asmtab */
    method Add(b: int, ghost s: seq<int>) returns (o: Outcome)
      requires Holds(s) && 0 <= b < 256
      modifies this, tab
      ensures o == if |s| < MAX_ASM_TAB then Done else Overflow
      ensures o.Done? ==> Holds(s + [b])
    {
      if count >= MAX_ASM_TAB {
        return Overflow;
      }
      tab[count] := b;
      count := count + 1;
      return Done;
    }

    method AddIf(wanted: bool, b: int, ghost s: seq<int>) returns (o: Outcome)
      requires Holds(s) && 0 <= b < 256
      modifies this, tab
      ensures o == if wanted && |s| == MAX_ASM_TAB then Overflow else Done
      ensures o.Done? ==> Holds(s + if wanted then [b] else [])
    {
      assert s + [] == s;
      o := Done;
      if wanted {
        o := Add(b, s);
      }
    }

    /** Lines 720 to 727: the check against the markers never strikes. */
    method AddNumber(v: Variant, n: nat, ghost s: seq<int>) returns (o: Outcome)
      requires Holds(s) && WellFormed(v, n)
      modifies this, tab
      ensures o == if |s| + |NumberBytes(v, n)| <= MAX_ASM_TAB then Done else Overflow
      ensures o.Done? ==> Holds(s + NumberBytes(v, n))
    {
      NumberFits(v, n);
      var atabInf := v.inf * (n + 1) + v.key;
      var hi, lo := atabInf / 256, atabInf % 256;
      o := Add(hi, s);
      if !o.Done? { return; }
      if hi >= MACH0 {
        return TooBusy;
      }
      o := Add(lo, s + [hi]);
      if !o.Done? { return; }
      assert s + [hi] + [lo] == s + [hi, lo];
      if v.xtra != 0 {
        o := Add(v.xtra, s + [hi, lo]);
        assert s + [hi, lo] + [v.xtra] == s + [hi, lo, v.xtra];
      }
    }

    /** Lines 614 to 727 as far as they write to the table. */
    method AddVariant(v: Variant, n: nat, ghost s: seq<int>) returns (o: Outcome)
      requires Holds(s) && WellFormed(v, n)
      modifies this, tab
      ensures o == if |s| + |Encoded(v, n)| <= MAX_ASM_TAB then Done else Overflow
      ensures o.Done? ==> Holds(s + Encoded(v, n))
    {
      ghost var lock := if v.lockable && !v.disOnly then [LOCKABLE] else [];
      ghost var mach := if v.machine.Some? then [MACH0 + v.machine.value] else [];
      ghost var number := if v.disOnly then [] else NumberBytes(v, n);
      LineParts(s, lock, mach, number);
      assert Encoded(v, n) == lock + (mach + number);
      o := AddIf(v.lockable && !v.disOnly, LOCKABLE, s);
      if !o.Done? { return; }
      o := AddIf(v.machine.Some?, if v.machine.Some? then MACH0 + v.machine.value else 0, s + lock);
      if !o.Done? { return; }
      if v.disOnly {
        assert s + lock + mach + [] == s + lock + mach;
        return Done;
      }
      o := AddNumber(v, n, s + lock + mach);
    }

    /** Variant `i` of a line; `t` is the table with it. */
    method AddNextVariant(vs: seq<Variant>, i: nat, n: nat, ghost s: seq<int>, ghost t: seq<int>) returns (o: Outcome)
      requires i < |vs| && AllWellFormed(vs, n) && Holds(s) && IsNextVariant(vs, n, i, s, t)
      modifies this, tab
      ensures o == if |t| <= MAX_ASM_TAB then Done else Overflow
      ensures o.Done? ==> Holds(t)
    {
      o := AddVariant(vs[i], n, s);
    }

    /** The loop over the variants of a line, where `ts` lists the tables after each of them. */
    method AddEach(vs: seq<Variant>, n: nat, ghost ts: seq<seq<int>>) returns (o: Outcome)
      requires AllWellFormed(vs, n) && VariantTables(vs, n, ts) && Holds(ts[0])
      modifies this, tab
      ensures o == if |ts[|vs|]| <= MAX_ASM_TAB then Done else Overflow
      ensures o.Done? ==> Holds(ts[|vs|])
    {
      var i := 0;
      while i < |vs|
        invariant 0 <= i <= |vs| && Holds(ts[i])
      {
        o := AddNextVariant(vs, i, n, ts[i], ts[i + 1]);
        if !o.Done? { return; }
        i := i + 1;
      }
      return Done;
    }

    /** All variants of a line, and the end mark. */
    method AddVariants(vs: seq<Variant>, n: nat, ghost s: seq<int>) returns (o: Outcome)
      requires Holds(s) && AllWellFormed(vs, n)
      modifies this, tab
      ensures o == if |s| + |EncodedAll(vs, n)| + 1 <= MAX_ASM_TAB then Done else Overflow
      ensures o.Done? ==> Holds(s + (EncodedAll(vs, n) + [END]))
    {
      ghost var ts := VariantTablesExist(vs, n, s);
      o := AddEach(vs, n, ts);
      if !o.Done? { return; }
      o := Add(END, s + EncodedAll(vs, n));
      assert s + EncodedAll(vs, n) + [END] == s + (EncodedAll(vs, n) + [END]);
    }

    method AddAddendum(l: Line, ghost s: seq<int>) returns (o: Outcome)
      requires Holds(s) && (l.addendum.Some? ==> 0 <= l.addendum.value < 256)
      modifies this, tab
      ensures o == if |s| + |AddendumBytes(l)| <= MAX_ASM_TAB then Done else Overflow
      ensures o.Done? ==> Holds(s + AddendumBytes(l))
    {
      if l.addendum.Some? {
        o := Add(l.addendum.value, s);
      } else {
        assert s + [] == s;
        o := Done;
      }
    }

    method AddBody(b: Body, n: nat, ghost s: seq<int>) returns (o: Outcome)
      requires Holds(s)
      requires match b
               case Variants(vs) => AllWellFormed(vs, n)
               case Prefix(mark, code) => 0 <= mark < 256 && 0 <= code < 256
      modifies this, tab
      ensures o == if |s| + |BodyBytes(b, n)| <= MAX_ASM_TAB then Done else Overflow
      ensures o.Done? ==> Holds(s + BodyBytes(b, n))
    {
      match b {
        case Variants(vs) =>
          o := AddVariants(vs, n, s);
        case Prefix(mark, code) =>
          o := Add(mark, s);
          if !o.Done? { return; }
          o := Add(code, s + [mark]);
          assert s + [mark] + [code] == s + [mark, code];
      }
    }

    method AddHead(h: Head, ghost s: seq<int>) returns (o: Outcome)
      requires Holds(s)
      modifies this, tab
      ensures o == if |s| + |HeadBytes(h)| <= MAX_ASM_TAB then Done else Overflow
      ensures o.Done? ==> Holds(s + HeadBytes(h))
    {
      match h {
        case Alone =>
          assert s + [] == s;
          return Done;
        case Wait =>
          o := Add(WAIT, s);
        case Pair =>
          o := Add(D16, s);
          if !o.Done? { return; }
          o := Add(D32, s + [D16]);
          assert s + [D16] + [D32] == s + [D16, D32];
      }
    }

    /** A line: the bytes at its head, the addendum, and its variants or prefix. */
    method AddLine(l: Line, n: nat, ghost s: seq<int>) returns (o: Outcome, mnem: nat)
      requires Holds(s) && LineWellFormed(l, n)
      modifies this, tab
      ensures o == if |s| + |LineBytes(l, n)| <= MAX_ASM_TAB then Done else Overflow
      ensures o.Done? ==> Holds(s + LineBytes(l, n)) && mnem == |s|
    {
      mnem := count;
      ghost var head, add := HeadBytes(l.head), AddendumBytes(l);
      LineParts(s, head, add, BodyBytes(l.body, n));
      o := AddHead(l.head, s);
      if !o.Done? { return; }
      o := AddAddendum(l, s + head);
      if !o.Done? { return; }
      o := AddBody(l.body, n, s + head + add);
    }

    /** Line `k` behind the lines before it; `t` is the table with it. */
    method AddNext(lines: seq<Line>, k: nat, n: nat, ghost s: seq<int>, ghost t: seq<int>)
      returns (o: Outcome, mnem: nat)
      requires k < |lines| && LinesWellFormed(lines, n) && Holds(s)
      requires IsNext(lines, n, k, s, t)
      modifies this, tab
      ensures o == if |t| <= MAX_ASM_TAB then Done else Overflow
      ensures o.Done? ==> Holds(t) && mnem == |s|
    {
      o, mnem := AddLine(lines[k], n, s);
    }

    /** All lines, where `ts` lists the tables after each of them. */
    method AddLines(lines: seq<Line>, n: nat, ghost ts: seq<seq<int>>) returns (o: Outcome, mnems: seq<int>)
      requires Holds([]) && LinesWellFormed(lines, n) && Tables(lines, n, ts)
      modifies this, tab
      ensures o == if |ts[|lines|]| <= MAX_ASM_TAB then Done else Overflow
      ensures o.Done? ==> Holds(ts[|lines|]) && |mnems| == |lines|
      ensures o.Done? ==> forall i :: 0 <= i < |lines| ==> mnems[i] == |ts[i]|
    {
      mnems, o := [], Done;
      var k := 0;
      while k < |lines|
        invariant 0 <= k <= |lines| && Holds(ts[k])
        invariant Offsets(mnems, ts, k)
      {
        var result, mnem := AddNext(lines, k, n, ts[k], ts[k + 1]);
        if !result.Done? {
          return result, mnems;
        }
        mnems, k := mnems + [mnem], k + 1;
      }
      return Done, mnems;
    }

    /** All lines of instr.set; `mnems` says where the data of each line begin. */
    method WriteTable(lines: seq<Line>, n: nat) returns (o: Outcome, mnems: seq<int>)
      requires Holds([]) && LinesWellFormed(lines, n)
      modifies this, tab
      ensures o == if |TableBytes(lines, |lines|, n)| <= MAX_ASM_TAB then Done else Overflow
      ensures o.Done? ==> Holds(TableBytes(lines, |lines|, n)) && |mnems| == |lines|
      ensures o.Done? ==> forall i :: 0 <= i < |lines| ==> mnems[i] == |TableBytes(lines, i, n)|
    {
      ghost var ts := TablesExist(lines, n);
      o, mnems := AddLines(lines, n, ts);
      if lines != [] { assert IsNext(lines, n, |lines| - 1, ts[|lines| - 1], ts[|lines|]); }
      if o.Done? {
        forall i | 0 <= i < |lines| ensures mnems[i] == |TableBytes(lines, i, n)| {
          assert IsNext(lines, n, i, ts[i], ts[i + 1]);
        }
      }
    }

    method Get(j: nat, ghost t: seq<int>) returns (b: nat)
      requires Holds(t)
      ensures b == At(t, j)
    {
      if j < MAX_ASM_TAB {
        assert j < count ==> tab[j] == t[j];
        b := tab[j];
      } else {
        b := 0;
      }
    }

    method ReadPrefixes(i: nat, ghost t: seq<int>) returns (prefixes: seq<int>, j: nat)
      requires Holds(t) && i < count
      ensures i <= j <= |t| && j == Behind(t, i) && prefixes == t[i..j]
    {
      prefixes, j := [], i;
      var b := Get(j, t);
      while SEG < b < WAIT
        invariant i <= j <= |t| && b == At(t, j) && Behind(t, j) == Behind(t, i) && prefixes == t[i..j]
        decreases |t| - j
      {
        prefixes, j := prefixes + [b], j + 1;
        b := Get(j, t);
      }
    }

    /** Lines 944 to 962 */
    method ReadNumber(start: nat, n: nat, ghost t: seq<int>) returns (inf: nat, key: nat, xtra: nat, j: nat)
      requires Holds(t)
      ensures (inf, key) == AsmTable.Split(At(t, start) * 256 + At(t, start + 1), n + 1)
      ensures xtra == if 0xd8 <= inf <= 0xdf then At(t, start + 2) else 0
      ensures j == if 0xd8 <= inf <= 0xdf then start + 3 else start + 2
    {
      var hi := Get(start, t);
      var lo := Get(start + 1, t);
      var k := AsmTable.Split(hi * 256 + lo, n + 1);
      inf, key := k.0, k.1;
      j := start + 2;
      xtra := 0;
      if 0xd8 <= inf <= 0xdf {
        xtra := Get(j, t);
        j := j + 1;
      }
    }

    method ReadVariant(start: nat, n: nat, ghost t: seq<int>) returns (stop: bool, shown: Shown, next: nat)
      requires Holds(t) && start < |t|
      ensures stop <==> t[start] == END || DecodeOne(t, start, n).None?
      ensures !stop ==> DecodeOne(t, start, n) == Some((shown, next))
    {
      stop, shown, next := true, Shown(false, None, 0, 0, 0), start;
      var lock, machine, j := false, None, start;
      var b := Get(j, t);
      if b == END { return; }
      if b == LOCKABLE {
        lock, j := true, j + 1;
        b := Get(j, t);
      }
      if b == END { return; }
      if MACH0 <= b <= MACH6 {
        machine, j := Some(b - MACH0), j + 1;
        b := Get(j, t);
      }
      var inf, key, xtra, behind := ReadNumber(j, n, t);
      return false, Shown(lock, machine, inf, key, xtra), behind;
    }

    method ReadVariants(start: nat, n: nat, ghost t: seq<int>) returns (variants: seq<Shown>)
      requires Holds(t)
      ensures variants == Decoded(t, start, n)
    {
      variants := [];
      var j := start;
      while j < count
        invariant start <= j && variants + Decoded(t, j, n) == Decoded(t, start, n)
        decreases |t| - j
      {
        var stop, shown, next := ReadVariant(j, n, t);
        if stop { break; }
        assert variants + ([shown] + Decoded(t, next, n)) == variants + [shown] + Decoded(t, next, n);
        variants, j := variants + [shown], next;
      }
      assert Decoded(t, j, n) == [];
    }

    /** dumptables for one mnemonic: lines 899 to 972. */
    method Dump(i: nat, n: nat, ghost t: seq<int>) returns (d: Dump)
      requires Holds(t) && i < count
      ensures d == DumpAt(t, i, n)
    {
      var first := Get(i, t);
      var second := Get(i + 1, t);
      if first == D16 && second == D32 {
        return SizePair;
      } else if first >= WAIT {
        return Directive(first);
      } else if first == SEG || first == LOCKREP {
        return PrefixByte(first, second);
      }
      var prefixes, j := ReadPrefixes(i, t);
      var variants := ReadVariants(j, n, t);
      return Instruction(prefixes, variants);
    }
  }

  /** Writing a table and printing line `i` of it gives back what the line says, for both of its mnemonics. */
  method WriteAndDump(lines: seq<Line>, n: nat, i: nat) returns (o: Outcome, first: Dump, main: Dump)
    requires LinesWellFormed(lines, n) && i < |lines|
    ensures o == if |TableBytes(lines, |lines|, n)| <= MAX_ASM_TAB then Done else Overflow
    ensures o.Done? ==> first == FirstDump(lines[i]) && main == MainDump(lines[i])
  {
    var table := new Table();
    var mnems;
    o, mnems := table.WriteTable(lines, n);
    if !o.Done? {
      return o, SizePair, SizePair;
    }
    ghost var t, p := TableBytes(lines, |lines|, n), |TableBytes(lines, i, n)|;
    TableRoundTrip(lines, i, n, t, p);
    first := table.Dump(mnems[i], n, t);
    main := first;
    if lines[i].head != Alone {
      main := table.Dump(mnems[i] + 1, n, t);
    }
  }
}
