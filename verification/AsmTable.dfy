/** The assembler table of debug/mktables.c: how it is written and how dumptables reads it back. */
module AsmTable {
  import opened Commons

  const END := 0xff
  const ORG := 0xfb
  const WAIT := 0xfa
  const D32 := 0xf9
  const D16 := 0xf8
  const AAX := 0xf7
  const SEG := 0xf6
  const LOCKREP := 0xf5
  const LOCKABLE := 0xf4
  const MACH6 := 0xf3
  const MACH0 := 0xed

  const MAX_ASM_TAB := 2048
  const MAX_OL_TYPES := 82
  /** The highest opcode information: 14 groups of 8 from 240h on. */
  const MAX_INF := 0x2af

  /** One instruction variant as read_is has parsed it; `machine` is the digit behind a semicolon. */
  datatype Variant = Variant(lockable: bool, machine: Option<nat>, inf: nat, key: nat, xtra: nat, disOnly: bool)

  /** What dumptables prints for a variant. */
  datatype Shown = Shown(lockable: bool, machine: Option<nat>, inf: nat, key: nat, xtra: nat)

  /** `n` operand-list types; a second escape byte belongs to the coprocessor opcodes D8h..DFh alone. */
  predicate WellFormed(v: Variant, n: nat) {
    && n <= MAX_OL_TYPES && v.key <= n && v.inf <= MAX_INF && (v.machine.Some? ==> v.machine.value <= 6)
    && (v.xtra != 0 <==> 0xd8 <= v.inf <= 0xdf) && (v.xtra == 0 || 0xc0 <= v.xtra <= 0xff)
  }

  ghost predicate AllWellFormed(vs: seq<Variant>, n: nat) {
    forall i :: 0 <= i < |vs| ==> WellFormed(vs[i], n)
  }

  function Number(v: Variant, n: nat): nat {
    v.inf * (n + 1) + v.key
  }

  lemma Product(a: nat, b: nat, n: nat)
    requires a <= b && n <= 83
    ensures a * n <= b * 83
  {
    assert a * n <= b * n;
    assert b * n <= b * 83;
  }

  lemma Division(m: nat, q: nat, r: nat)
    requires r < m
    ensures (q * m + r) / m == q && (q * m + r) % m == r
  {
    var x := q * m + r;
    var p := x / m;
    assert x == p * m + x % m;
    Times(p + 1, q, m);
    Times(q + 1, p, m);
  }

  lemma NumberFits(v: Variant, n: nat)
    requires WellFormed(v, n)
    ensures Number(v, n) < 0xe000
    ensures Number(v, n) / (n + 1) == v.inf && Number(v, n) % (n + 1) == v.key
  {
    assert v.inf * (n + 1) <= MAX_INF * 83 by { Product(v.inf, MAX_INF, n + 1); }
    Division(n + 1, v.inf, v.key);
  }

  function Encoded(v: Variant, n: nat): (s: seq<int>) {
    (if v.lockable && !v.disOnly then [LOCKABLE] else [])
    + (if v.machine.Some? then [MACH0 + v.machine.value] else [])
    + (if v.disOnly then [] else [Number(v, n) / 256, Number(v, n) % 256] + if v.xtra != 0 then [v.xtra] else [])
  }

  function EncodedAll(vs: seq<Variant>, n: nat): (s: seq<int>) {
    if vs == [] then [] else Encoded(vs[0], n) + EncodedAll(vs[1..], n)
  }

  lemma FirstEncoded(vs: seq<Variant>, n: nat)
    requires vs != []
    ensures EncodedAll(vs, n) + [END] == Encoded(vs[0], n) + (EncodedAll(vs[1..], n) + [END])
  {
  }

  function ShownOf(v: Variant): Shown {
    Shown(v.lockable, v.machine, v.inf, v.key, v.xtra)
  }

  /** The variants the assembler is to know. */
  function Recorded(vs: seq<Variant>): (r: seq<Shown>) {
    if vs == [] then []
    else if vs[0].disOnly then Recorded(vs[1..])
    else [ShownOf(vs[0])] + Recorded(vs[1..])
  }

  ghost predicate Bytes(t: seq<int>) {
    forall i :: 0 <= i < |t| ==> 0 <= t[i] < 256
  }

  /** The rest of the table array is zero. */
  function At(t: seq<int>, j: nat): (b: nat)
    requires Bytes(t)
    ensures b < 256
  {
    if j < |t| then t[j] else 0
  }

  function Split(k: nat, m: nat): (nat, nat)
    requires 0 < m
  {
    (k / m, k % m)
  }

  /** One turn of the loop of dumptables at `j`, where neither the end of the table nor END stands: lines 926 to 969. */
  function DecodeOne(t: seq<int>, j: nat, n: nat): (r: Option<(Shown, nat)>)
    requires Bytes(t)
    ensures r.Some? ==> j < r.value.1
  {
    var lock := At(t, j) == LOCKABLE;
    var j1 := if lock then j + 1 else j;
    if At(t, j1) == END then None else
      var machine := if MACH0 <= At(t, j1) <= MACH6 then Some(At(t, j1) - MACH0) else None;
      var j2 := if machine.Some? then j1 + 1 else j1;
      var k := At(t, j2) * 256 + At(t, j2 + 1);
      var inf, key := Split(k, n + 1).0, Split(k, n + 1).1;
      var fp := 0xd8 <= inf <= 0xdf;
      Some((Shown(lock, machine, inf, key, if fp then At(t, j2 + 2) else 0), if fp then j2 + 3 else j2 + 2))
  }

  function Decoded(t: seq<int>, j: nat, n: nat): (r: seq<Shown>)
    requires Bytes(t)
    decreases |t| - j
  {
    if j >= |t| || t[j] == END then []
    else
      var one := DecodeOne(t, j, n);
      if one.None? then [] else [one.value.0] + Decoded(t, one.value.1, n)
  }

  /** A disassembler-only variant with a machine digit leaves a machine byte without a variant. */
  predicate Stray(v: Variant) {
    v.disOnly && v.machine.Some?
  }

  /** `s` is what stands at position `j` of the table. */
  ghost predicate StandsAt(t: seq<int>, j: nat, s: seq<int>) {
    j + |s| <= |t| && forall i :: 0 <= i < |s| ==> t[j + i] == s[i]
  }

  lemma StandsParts(t: seq<int>, j: nat, a: seq<int>, b: seq<int>)
    requires StandsAt(t, j, a + b)
    ensures StandsAt(t, j, a) && StandsAt(t, j + |a|, b)
  {
    forall i | 0 <= i < |a| ensures t[j + i] == a[i] { assert (a + b)[i] == a[i]; }
    forall i | 0 <= i < |b| ensures t[j + |a| + i] == b[i] { assert (a + b)[|a| + i] == b[i]; }
  }

  /** A recorded variant is read back as it was, and reading goes on right behind it. */
  lemma OneRoundTrip(t: seq<int>, j: nat, v: Variant, n: nat)
    requires Bytes(t) && WellFormed(v, n) && !v.disOnly && StandsAt(t, j, Encoded(v, n))
    ensures t[j] != END
    ensures DecodeOne(t, j, n)
         == Some((ShownOf(v), j + |Encoded(v, n)|))
  {
    NumberFits(v, n);
    var s, k := Encoded(v, n), Number(v, n);
    assert t[j] == s[0] && t[j + 1] == s[1];
    assert |s| > 2 ==> t[j + 2] == s[2];
    assert |s| > 3 ==> t[j + 3] == s[3];
    assert |s| > 4 ==> t[j + 4] == s[4];
  }

  lemma DecodedFirst(t: seq<int>, j: nat, v: Variant, n: nat)
    requires Bytes(t) && WellFormed(v, n) && !v.disOnly && StandsAt(t, j, Encoded(v, n))
    ensures Decoded(t, j, n) == [ShownOf(v)] + Decoded(t, j + |Encoded(v, n)|, n)
  {
    OneRoundTrip(t, j, v, n);
  }

  /** The bytes of the variants begin with a marker, or else the first recorded one has neither lock flag nor machine. */
  lemma AfterStray(t: seq<int>, j: nat, vs: seq<Variant>, n: nat)
    requires Bytes(t) && AllWellFormed(vs, n) && StandsAt(t, j, EncodedAll(vs, n) + [END])
    ensures Recorded(vs) != [] ==>
      t[j] >= MACH0 || (!Recorded(vs)[0].lockable && Recorded(vs)[0].machine.None?)
    ensures Recorded(vs) != [] ==> Recorded(vs)[0].inf * (n + 1) + Recorded(vs)[0].key < 0xe000
    decreases vs
  {
    if vs != [] {
      var v, rest := vs[0], EncodedAll(vs[1..], n) + [END];
      FirstEncoded(vs, n);
      StandsParts(t, j, Encoded(v, n), rest);
      if v.disOnly {
        AfterStray(t, j + |Encoded(v, n)|, vs[1..], n);
      } else {
        NumberFits(v, n);
      }
      if Encoded(v, n) != [] { assert t[j] == Encoded(v, n)[0]; }
    }
  }

  /** What a machine byte makes of the two bytes behind it. */
  lemma StrayDecoded(t: seq<int>, j: nat, n: nat)
    requires Bytes(t) && j < |t| && MACH0 <= t[j] <= MACH6
    ensures Decoded(t, j, n) != [] && Decoded(t, j, n)[0].machine.Some?
    ensures var one := Decoded(t, j, n)[0]; one.inf * (n + 1) + one.key == At(t, j + 1) * 256 + At(t, j + 2)
  {
  }

  lemma SpoiledBy(t: seq<int>, j: nat, v: Variant, vs: seq<Variant>, n: nat)
    requires Bytes(t) && Stray(v) && WellFormed(v, n) && AllWellFormed(vs, n)
    requires StandsAt(t, j, Encoded(v, n)) && StandsAt(t, j + |Encoded(v, n)|, EncodedAll(vs, n) + [END])
    ensures Decoded(t, j, n) != Recorded(vs)
  {
    AfterStray(t, j + 1, vs, n);
    assert t[j] == Encoded(v, n)[0];
    StrayDecoded(t, j, n);
  }

  lemma FirstStands(t: seq<int>, j: nat, vs: seq<Variant>, n: nat)
    requires vs != [] && StandsAt(t, j, EncodedAll(vs, n) + [END])
    ensures StandsAt(t, j, Encoded(vs[0], n))
    ensures StandsAt(t, j + |Encoded(vs[0], n)|, EncodedAll(vs[1..], n) + [END])
  {
    FirstEncoded(vs, n);
    StandsParts(t, j, Encoded(vs[0], n), EncodedAll(vs[1..], n) + [END]);
  }

  lemma RecordedFirst(vs: seq<Variant>)
    requires vs != []
    ensures Recorded(vs) == if vs[0].disOnly then Recorded(vs[1..]) else [ShownOf(vs[0])] + Recorded(vs[1..])
  {
  }

  /** A stray machine byte spoils what is read from it on. */
  lemma StraySpoils(t: seq<int>, j: nat, vs: seq<Variant>, n: nat)
    requires Bytes(t) && vs != [] && Stray(vs[0]) && AllWellFormed(vs, n)
    requires StandsAt(t, j, EncodedAll(vs, n) + [END])
    ensures Decoded(t, j, n) != Recorded(vs)
  {
    FirstStands(t, j, vs, n);
    RecordedFirst(vs);
    SpoiledBy(t, j, vs[0], vs[1..], n);
  }

  /** A variant that the assembler is not to know leaves nothing behind. */
  lemma HiddenFirst(vs: seq<Variant>, n: nat)
    requires vs != [] && vs[0].disOnly && !Stray(vs[0])
    ensures Encoded(vs[0], n) == [] && Recorded(vs) == Recorded(vs[1..])
  {
  }

  lemma SameHead<T>(x: T, a: seq<T>, b: seq<T>)
    ensures [x] + a == [x] + b <==> a == b
  {
    assert ([x] + a)[1..] == a && ([x] + b)[1..] == b;
  }

  /** One that it is to know is given back, and it depends on the others whether all are. */
  lemma ShownFirst(t: seq<int>, j: nat, vs: seq<Variant>, n: nat)
    requires Bytes(t) && vs != [] && !vs[0].disOnly && WellFormed(vs[0], n) && StandsAt(t, j, Encoded(vs[0], n))
    ensures Decoded(t, j, n) == Recorded(vs) <==> Decoded(t, j + |Encoded(vs[0], n)|, n) == Recorded(vs[1..])
  {
    var v := vs[0];
    RecordedFirst(vs);
    DecodedFirst(t, j, v, n);
    SameHead(ShownOf(v), Decoded(t, j + |Encoded(v, n)|, n), Recorded(vs[1..]));
  }

  lemma EndStands(t: seq<int>, j: nat, n: nat)
    requires Bytes(t) && StandsAt(t, j, EncodedAll([], n) + [END])
    ensures Decoded(t, j, n) == []
  {
    assert (EncodedAll([], n) + [END])[0] == END;
    assert t[j + 0] == END;
  }

  /** No disassembler-only variant carries a machine digit. */
  ghost predicate Clean(vs: seq<Variant>) {
    forall i :: 0 <= i < |vs| ==> !Stray(vs[i])
  }

  lemma NoneStray(vs: seq<Variant>)
    requires vs != []
    ensures Clean(vs) <==> !Stray(vs[0]) && Clean(vs[1..])
  {
  }

  /** The table gives back exactly the recorded variants if and only if no stray machine byte has been written. */
  lemma {:induction false} RoundTrip(t: seq<int>, j: nat, vs: seq<Variant>, n: nat)
    requires Bytes(t) && AllWellFormed(vs, n) && StandsAt(t, j, EncodedAll(vs, n) + [END])
    ensures Decoded(t, j, n) == Recorded(vs) <==> Clean(vs)
    decreases vs
  {
    if vs == [] {
      EndStands(t, j, n);
    } else {
      FirstStands(t, j, vs, n);
      RoundTrip(t, j + |Encoded(vs[0], n)|, vs[1..], n);
      NoneStray(vs);
      if Stray(vs[0]) {
        StraySpoils(t, j, vs, n);
      } else if vs[0].disOnly {
        HiddenFirst(vs, n);
      } else {
        ShownFirst(t, j, vs, n);
      }
    }
  }

  /** A disassembler-only variant for the 80386 before a plain one: the plain one comes back with the machine digit. */
  lemma StrayExample(stray: Variant, plain: Variant, t: seq<int>)
    requires stray == Variant(false, Some(3), 0x40, 1, 0, true) && plain == Variant(false, None, 0x48, 1, 0, false)
    requires t == EncodedAll([stray, plain], 10) + [END]
    ensures Bytes(t) && Decoded(t, 0, 10) == [Shown(false, Some(3), 0x48, 1, 0)] != Recorded([stray, plain])
  {
    assert [stray, plain][1..] == [plain] && [plain][1..] == [];
    assert EncodedAll([plain], 10) == Encoded(plain, 10);
    assert t == [MACH0 + 3, 0x48 * 11 / 256, (0x48 * 11 + 1) % 256, END];
    assert Split(0x48 * 11 + 1, 11) == (0x48, 1);
    assert DecodeOne(t, 0, 10) == Some((Shown(false, Some(3), 0x48, 1, 0), 3));
    assert Decoded(t, 3, 10) == [] && t[0] != END;
    var x := Shown(false, Some(3), 0x48, 1, 0);
    assert Decoded(t, 0, 10) == [x] + [] == [x];
    var r := Recorded([stray, plain]);
    assert Recorded([plain]) == [ShownOf(plain)] + [];
    assert r == Recorded([stray, plain][1..]) == Recorded([plain]) && r[0].machine == None;
  }
}
