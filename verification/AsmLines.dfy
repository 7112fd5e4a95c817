/** Whole lines of instr.set in the assembler table of debug/mktables.c, and the two loops over the table. */
module AsmLines {
  import opened Commons
  import opened AsmTable

  const DB := 0xfe
  const DW := 0xfd
  const DD := 0xfc

  /** A line names one mnemonic, two that differ in operand size, or one that stands for another one after WAIT. */
  datatype Head = Alone | Pair | Wait

  datatype Body = Variants(vs: seq<Variant>) | Prefix(mark: int, code: int)

  datatype Line = Line(head: Head, addendum: Option<int>, body: Body)

  /** What dumptables shows for a mnemonic. */
  datatype Dump =
    | SizePair
    | Directive(mark: int)
    | PrefixByte(mark: int, code: int)
    | Instruction(prefixes: seq<int>, variants: seq<Shown>)

  function HeadBytes(h: Head): seq<int> {
    match h
    case Alone => []
    case Pair => [D16, D32]
    case Wait => [WAIT]
  }

  function AddendumBytes(l: Line): seq<int> {
    if l.addendum.Some? then [l.addendum.value] else []
  }

  function BodyBytes(b: Body, n: nat): seq<int> {
    match b
    case Variants(vs) => EncodedAll(vs, n) + [END]
    case Prefix(mark, code) => [mark, code]
  }

  function LineBytes(l: Line, n: nat): seq<int> {
    HeadBytes(l.head) + (AddendumBytes(l) + BodyBytes(l.body, n))
  }

  predicate IsDirective(b: int) {
    b == DB || b == DW || b == DD || b == ORG
  }

  /** Size and address prefixes concern instructions; a mnemonic without any mark must have a recorded variant. */
  ghost predicate LineWellFormed(l: Line, n: nat) {
    && (l.addendum.Some? ==> IsDirective(l.addendum.value) || l.addendum.value == AAX || l.addendum.value == D32)
    && match l.body
       case Prefix(mark, code) =>
         l.head != Pair && l.addendum.None? && (mark == SEG || mark == LOCKREP) && 0 <= code < 256
       case Variants(vs) =>
         && AllWellFormed(vs, n) && Clean(vs)
         && (l.head == Pair ==> l.addendum.None? || !IsDirective(l.addendum.value))
         && (l.head != Pair && l.addendum.None? ==> Recorded(vs) != [])
  }

  function MainDump(l: Line): Dump {
    match l.body
    case Prefix(mark, code) => PrefixByte(mark, code)
    case Variants(vs) =>
      if l.addendum.Some? && IsDirective(l.addendum.value) then Directive(l.addendum.value)
      else Instruction((if l.head == Pair then [D32] else []) + AddendumBytes(l), Recorded(vs))
  }

  /** What belongs to the mnemonic entered first on a line. */
  function FirstDump(l: Line): Dump {
    match l.head
    case Alone => MainDump(l)
    case Pair => SizePair
    case Wait => Directive(WAIT)
  }

  /** Where the prefix bytes from `j` on end. */
  function Behind(t: seq<int>, j: nat): (k: nat)
    requires Bytes(t)
    ensures j <= k
    decreases |t| - j
  {
    if j < |t| && SEG < t[j] < WAIT then Behind(t, j + 1) else j
  }

  /** Lines 899 to 972 of dumptables, for a mnemonic whose data begins at `i`. */
  function DumpAt(t: seq<int>, i: nat, n: nat): Dump
    requires Bytes(t) && i < |t|
  {
    if t[i] == D16 && At(t, i + 1) == D32 then SizePair
    else if t[i] >= WAIT then Directive(t[i])
    else if t[i] == SEG || t[i] == LOCKREP then PrefixByte(t[i], At(t, i + 1))
    else
      var j := Behind(t, i);
      Instruction(if j <= |t| then t[i..j] else [], Decoded(t, j, n))
  }

  /** No variant begins with a byte that could be taken for a prefix or a directive. */
  lemma {:induction false} FirstByte(vs: seq<Variant>, n: nat)
    requires AllWellFormed(vs, n)
    ensures (EncodedAll(vs, n) + [END])[0] <= LOCKABLE || (EncodedAll(vs, n) + [END])[0] == END
    ensures Clean(vs) && Recorded(vs) != [] ==> (EncodedAll(vs, n) + [END])[0] <= LOCKABLE
    decreases vs
  {
    if vs != [] {
      FirstEncoded(vs, n);
      if vs[0].disOnly {
        NoneStray(vs);
        FirstByte(vs[1..], n);
      } else {
        NumberFits(vs[0], n);
      }
    }
  }

  ghost predicate SizePrefixes(pre: seq<int>) {
    forall k :: 0 <= k < |pre| ==> pre[k] == D32 || pre[k] == AAX
  }

  lemma {:induction false} PrefixesEnd(t: seq<int>, i: nat, pre: seq<int>, b: int)
    requires Bytes(t) && SizePrefixes(pre) && StandsAt(t, i, pre + [b]) && (b <= LOCKABLE || b == END)
    ensures Behind(t, i) == i + |pre| && t[i..i + |pre|] == pre
    decreases pre
  {
    assert t[i + 0] == (pre + [b])[0];
    if pre != [] {
      assert pre + [b] == [pre[0]] + (pre[1..] + [b]);
      StandsParts(t, i, [pre[0]], pre[1..] + [b]);
      PrefixesEnd(t, i + 1, pre[1..], b);
      assert t[i..i + |pre|] == [t[i]] + t[i + 1..i + |pre|];
    }
  }

  lemma StandsWithNext(t: seq<int>, i: nat, pre: seq<int>, rest: seq<int>)
    requires StandsAt(t, i, pre + rest) && rest != []
    ensures StandsAt(t, i, pre + [rest[0]])
  {
    assert rest == [rest[0]] + rest[1..];
    assert pre + rest == (pre + [rest[0]]) + rest[1..];
    StandsParts(t, i, pre + [rest[0]], rest[1..]);
  }

  /** What is shown for data that begin with a prefix or a variant. */
  lemma DumpOf(t: seq<int>, i: nat, j: nat, pre: seq<int>, n: nat)
    requires Bytes(t) && i < |t| && (t[i] == D32 || t[i] == AAX || t[i] <= LOCKABLE)
    requires j == Behind(t, i) <= |t| && t[i..j] == pre
    ensures DumpAt(t, i, n) == Instruction(pre, Decoded(t, j, n))
  {
  }

  /** The data of a mnemonic that begins with the prefixes `pre`. */
  lemma InstructionDump(t: seq<int>, i: nat, pre: seq<int>, vs: seq<Variant>, n: nat)
    requires Bytes(t) && AllWellFormed(vs, n) && Clean(vs) && StandsAt(t, i, pre + (EncodedAll(vs, n) + [END]))
    requires SizePrefixes(pre) && (pre == [] ==> Recorded(vs) != [])
    ensures DumpAt(t, i, n) == Instruction(pre, Recorded(vs))
  {
    var rest := EncodedAll(vs, n) + [END];
    var b := rest[0];
    FirstByte(vs, n);
    StandsParts(t, i, pre, rest);
    StandsWithNext(t, i, pre, rest);
    PrefixesEnd(t, i, pre, b);
    RoundTrip(t, i + |pre|, vs, n);
    assert t[i + 0] == (pre + [b])[0];
    DumpOf(t, i, i + |pre|, pre, n);
  }

  /** The mnemonic whose data are the addendum and the body. */
  lemma MainRoundTrip(t: seq<int>, p: nat, l: Line, n: nat)
    requires Bytes(t) && LineWellFormed(l, n) && l.head != Pair
    requires StandsAt(t, p, AddendumBytes(l) + BodyBytes(l.body, n))
    ensures p < |t| && DumpAt(t, p, n) == MainDump(l)
  {
    var s := AddendumBytes(l) + BodyBytes(l.body, n);
    assert |s| > 0 && t[p + 0] == s[0];
    match l.body
    case Prefix(mark, code) =>
      assert t[p + 1] == s[1];
    case Variants(vs) =>
      if l.addendum.None? || !IsDirective(l.addendum.value) {
        InstructionDump(t, p, AddendumBytes(l), vs, n);
        assert MainDump(l) == Instruction(AddendumBytes(l), Recorded(vs)) by {
          assert [] + AddendumBytes(l) == AddendumBytes(l);
        }
      }
  }

  lemma HeadStands(t: seq<int>, p: nat, head: seq<int>, rest: seq<int>)
    requires StandsAt(t, p, head + rest) && |head| == 1
    ensures p < |t| && t[p] == head[0] && StandsAt(t, p + 1, rest)
  {
    StandsParts(t, p, head, rest);
    assert t[p + 0] == head[0];
  }

  /** Both mnemonics of a line that differ in operand size. */
  lemma PairRoundTrip(t: seq<int>, p: nat, l: Line, n: nat)
    requires Bytes(t) && LineWellFormed(l, n) && l.head == Pair && StandsAt(t, p, LineBytes(l, n))
    ensures p + 1 < |t| && DumpAt(t, p, n) == SizePair && DumpAt(t, p + 1, n) == MainDump(l)
  {
    var pre, rest := [D32] + AddendumBytes(l), BodyBytes(l.body, n);
    assert LineBytes(l, n) == [D16] + (pre + rest);
    HeadStands(t, p, [D16], pre + rest);
    assert pre + rest == [D32] + (AddendumBytes(l) + rest);
    HeadStands(t, p + 1, [D32], AddendumBytes(l) + rest);
    InstructionDump(t, p + 1, pre, l.body.vs, n);
  }

  /** Each mnemonic of a line is shown with what the line says of it, whatever the table holds elsewhere. */
  lemma LineRoundTrip(t: seq<int>, p: nat, l: Line, n: nat)
    requires Bytes(t) && LineWellFormed(l, n) && StandsAt(t, p, LineBytes(l, n))
    ensures p < |t| && DumpAt(t, p, n) == FirstDump(l)
    ensures l.head != Alone ==> p + 1 < |t| && DumpAt(t, p + 1, n) == MainDump(l)
  {
    match l.head
    case Alone =>
      assert LineBytes(l, n) == AddendumBytes(l) + BodyBytes(l.body, n);
      MainRoundTrip(t, p, l, n);
    case Wait =>
      HeadStands(t, p, [WAIT], AddendumBytes(l) + BodyBytes(l.body, n));
      MainRoundTrip(t, p + 1, l, n);
    case Pair =>
      PairRoundTrip(t, p, l, n);
  }

  /** The table of the first `k` lines. */
  function TableBytes(lines: seq<Line>, k: nat, n: nat): (s: seq<int>)
    requires k <= |lines|
    decreases k, lines
  {
    if k == 0 then [] else TableBytes(lines, k - 1, n) + LineBytes(lines[k - 1], n)
  }

  lemma StandsInFront(t: seq<int>, p: nat, s: seq<int>, more: seq<int>)
    requires StandsAt(t, p, s)
    ensures StandsAt(t + more, p, s)
  {
  }

  lemma StandsBehind(t: seq<int>, s: seq<int>)
    ensures StandsAt(t + s, |t|, s)
  {
  }

  lemma {:induction false} LineStands(lines: seq<Line>, k: nat, i: nat, n: nat)
    requires i < k <= |lines|
    ensures StandsAt(TableBytes(lines, k, n), |TableBytes(lines, i, n)|, LineBytes(lines[i], n))
    decreases k
  {
    var before, s := TableBytes(lines, k - 1, n), LineBytes(lines[k - 1], n);
    if i < k - 1 {
      LineStands(lines, k - 1, i, n);
      StandsInFront(before, |TableBytes(lines, i, n)|, LineBytes(lines[i], n), s);
    } else {
      StandsBehind(before, s);
    }
  }

  /** Every line of a table is read back from where it was entered. */
  lemma TableRoundTrip(lines: seq<Line>, i: nat, n: nat, t: seq<int>, p: nat)
    requires i < |lines| && LineWellFormed(lines[i], n) && Bytes(t)
    requires t == TableBytes(lines, |lines|, n) && p == |TableBytes(lines, i, n)|
    ensures p < |t| && DumpAt(t, p, n) == FirstDump(lines[i])
    ensures lines[i].head != Alone ==> p + 1 < |t| && DumpAt(t, p + 1, n) == MainDump(lines[i])
  {
    LineStands(lines, |lines|, i, n);
    LineRoundTrip(t, p, lines[i], n);
  }
}
