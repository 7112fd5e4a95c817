/** Number output of emm386-himem/PRF.C and number input of emm386-himem/USEFUL.C. */
module Numbers {
  const TWO31 := 0x8000_0000
  const TWO32 := 0x1_0000_0000

  /** A 32-bit two's complement number. */
  function Wrap(x: int): (r: int)
    ensures -TWO31 <= r < TWO31
  {
    (x + TWO31) % TWO32 - TWO31
  }

  lemma WrapAgain(x: int, y: int, q: int)
    requires y == x + q * TWO32
    ensures Wrap(y) == Wrap(x)
  {
  }

  // ----- digits -----

  function HexDigit(d: nat): (c: char)
    requires d < 16
  {
    "0123456789abcdef"[d]
  }

  function ToUpper(c: int): int {
    if 'a' as int <= c <= 'z' as int then c - 0x20 else c
  }

  /** The digit a character stands for; 36 and more, and -1, for none. */
  function DigitOf(c: char): (d: int)
    ensures -1 <= d
  {
    var u := ToUpper(c as int);
    if '0' as int <= u <= '9' as int then u - '0' as int
    else if 'A' as int <= u then u - 'A' as int + 10
    else -1
  }

  predicate IsDigit(c: char, base: int) {
    0 <= DigitOf(c) < base
  }

  lemma DigitOfHex(d: nat)
    requires d < 16
    ensures DigitOf(HexDigit(d)) == d
  {
  }

  function Quotient(u: nat, base: nat): (q: nat)
    requires 2 <= base
  {
    u / base
  }

  function Remainder(u: nat, base: nat): (r: nat)
    requires 2 <= base
    ensures r < base
  {
    u % base
  }

  lemma Division(u: nat, base: nat)
    requires 2 <= base
    ensures u == Quotient(u, base) * base + Remainder(u, base) && 2 * Quotient(u, base) <= u
    ensures Quotient(u, base) == 0 <==> u < base
  {
    var q := Quotient(u, base);
    assert u == base * q + u % base;
    assert 2 * q <= base * q;
  }

  /** The digits of `u`, most significant first. */
  function Digits(u: nat, base: nat): (s: seq<char>)
    requires 2 <= base <= 16
    ensures s != []
    decreases u
  {
    if u < base then [HexDigit(u)]
    else
      Division(u, base);
      Digits(Quotient(u, base), base) + [HexDigit(Remainder(u, base))]
  }

  /** The exact value of a digit string. */
  function Value(s: seq<char>, base: int): int {
    if s == [] then 0 else Value(s[..|s| - 1], base) * base + DigitOf(s[|s| - 1])
  }

  lemma ValueNext(s: seq<char>, c: char, base: int)
    ensures Value(s + [c], base) == Value(s, base) * base + DigitOf(c)
  {
    assert (s + [c])[..|s|] == s;
  }

  predicate AllDigits(s: seq<char>, base: int) {
    forall i :: 0 <= i < |s| ==> IsDigit(s[i], base)
  }

  /** Digits denote their number. */
  lemma {:induction false} DigitsValue(u: nat, base: nat)
    requires 2 <= base <= 16
    ensures Value(Digits(u, base), base) == u
    decreases u
  {
    Division(u, base);
    if u < base {
      DigitOfHex(u);
      ValueNext([], HexDigit(u), base);
      assert [] + [HexDigit(u)] == [HexDigit(u)];
    } else {
      var q, r := Quotient(u, base), Remainder(u, base);
      DigitsValue(q, base);
      DigitOfHex(r);
      ValueNext(Digits(q, base), HexDigit(r), base);
    }
  }

  /** Digits are digits of the base. */
  lemma {:induction false} DigitsAreDigits(u: nat, base: nat)
    requires 2 <= base <= 16
    ensures AllDigits(Digits(u, base), base)
    decreases u
  {
    Division(u, base);
    if u < base {
      DigitOfHex(u);
    } else {
      DigitsAreDigits(Quotient(u, base), base);
      DigitOfHex(Remainder(u, base));
    }
  }

  /** There is no leading zero. */
  lemma {:induction false} NoLeadingZero(u: nat, base: nat)
    requires 2 <= base <= 16 && 0 < u
    ensures Digits(u, base)[0] != '0'
    decreases u
  {
    Division(u, base);
    if u >= base { NoLeadingZero(Quotient(u, base), base); }
  }

  function Pow2(k: nat): (p: nat)
    ensures 0 < p
  {
    if k == 0 then 1 else 2 * Pow2(k - 1)
  }

  lemma {:induction false} DigitsLength(u: nat, base: nat, k: nat)
    requires 2 <= base <= 16 && 1 <= k && u < Pow2(k)
    ensures |Digits(u, base)| <= k
    decreases k
  {
    Division(u, base);
    if u >= base { DigitsLength(Quotient(u, base), base, k - 1); }
  }

  lemma Pow32()
    ensures Pow2(32) == TWO32
  {
    assert Pow2(8) == 256;
    assert Pow2(16) == 65536;
    assert Pow2(24) == 0x100_0000;
  }

  // ----- ltob -----

  /** What ltob writes: base -10 asks for a sign, any other base shows a negative number as the word it is stored in. */
  function Text(n: int, base: int): (s: seq<char>)
    requires -TWO31 <= n < TWO31 && (base == -10 || 2 <= base <= 16)
  {
    if base == -10 then (if n < 0 then "-" + Digits(-n, 10) else Digits(n, 10))
    else Digits(if n < 0 then n + TWO32 else n, base)
  }

  function Backward(s: seq<char>): (r: seq<char>)
    ensures |r| == |s|
  {
    seq(|s|, i requires 0 <= i < |s| => s[|s| - 1 - i])
  }

  function DigitsOrNone(u: nat, base: nat): seq<char>
    requires 2 <= base <= 16
  {
    if u == 0 then [] else Digits(u, base)
  }

  lemma OneDigit(u: nat, base: nat)
    requires 2 <= base <= 16
    ensures Digits(u, base) == DigitsOrNone(Quotient(u, base), base) + [HexDigit(Remainder(u, base))]
  {
    Division(u, base);
  }

  lemma NextDigit(u: nat, base: nat, left: seq<char>, done: seq<char>) returns (rest: seq<char>)
    requires 2 <= base <= 16 && left == Digits(u, base)
    ensures left + done == rest + ([HexDigit(Remainder(u, base))] + done)
    ensures rest == if Quotient(u, base) > 0 then Digits(Quotient(u, base), base) else []
    ensures Quotient(u, base) < u || Quotient(u, base) == 0
  {
    OneDigit(u, base);
    Division(u, base);
    rest := DigitsOrNone(Quotient(u, base), base);
    assert rest + [HexDigit(Remainder(u, base))] + done == rest + ([HexDigit(Remainder(u, base))] + done);
  }

  lemma BackwardNext(s: seq<char>, c: char)
    ensures Backward([c] + s) == Backward(s) + [c]
  {
  }

  /** Lines 156 to 163: the digits of `u`, least significant first, from `q` on. */
  method Generate(u0: nat, s: array<char>, q: nat, base: nat) returns (p: nat)
    requires 2 <= base <= 16 && q + |Digits(u0, base)| < s.Length
    modifies s
    ensures p == q + |Digits(u0, base)| && s[q..p] == Backward(Digits(u0, base))
    ensures s[..q] == old(s[..q])
  {
    var u: nat, k: nat, more := u0, q, true;
    ghost var done: seq<char>, left, text := [], Digits(u0, base), Digits(u0, base);
    while more
      invariant q <= k < s.Length && s[q..k] == Backward(done) && s[..q] == old(s[..q])
      invariant text == left + done && left == if more then Digits(u, base) else []
      decreases u, more
    {
      var d := Remainder(u, base);
      left := NextDigit(u, base, left, done);
      s[k] := HexDigit(d);
      BackwardNext(done, HexDigit(d));
      done := [HexDigit(d)] + done;
      k, u := k + 1, Quotient(u, base);
      more := u > 0;
    }
    assert text == done;
    return k;
  }

  /** The buffer begins with `text` and a NUL behind it. */
  ghost predicate IsText(line: array<char>, text: seq<char>)
    reads line
  {
    |text| < line.Length && line[..|text|] == text && line[|text|] == '\0' && '\0' !in text
  }

  lemma Reversed(before: seq<char>, now: seq<char>, q0: nat, p0: nat)
    requires q0 <= p0 <= |before| == |now|
    requires forall i :: q0 <= i < p0 ==> now[i] == before[q0 + p0 - 1 - i]
    requires forall i :: 0 <= i < q0 || p0 <= i < |now| ==> now[i] == before[i]
    ensures now[q0..p0] == Backward(before[q0..p0])
    ensures now[..q0] == before[..q0] && now[p0..] == before[p0..]
  {
    var back := Backward(before[q0..p0]);
    forall k | 0 <= k < p0 - q0 ensures now[q0 + k] == back[k] {
      assert back[k] == before[q0..p0][p0 - q0 - 1 - k];
    }
  }

  /** Lines 166 to 171 */
  method ReverseInPlace(s: array<char>, q0: nat, p0: nat)
    requires q0 <= p0 <= s.Length
    modifies s
    ensures s[q0..p0] == Backward(old(s[q0..p0]))
    ensures s[..q0] == old(s[..q0]) && s[p0..] == old(s[p0..])
  {
    ghost var before := s[..];
    var q, p := q0, p0 - 1;
    while q < p
      invariant q0 <= q <= p + 2 && q + p == q0 + p0 - 1
      invariant forall i :: q0 <= i < q || p < i < p0 ==> s[i] == before[q0 + p0 - 1 - i]
      invariant forall i :: q <= i <= p || 0 <= i < q0 || p0 <= i < s.Length ==> s[i] == before[i]
    {
      var c := s[q];
      s[q] := s[p];
      s[p] := c;
      q, p := q + 1, p - 1;
    }
    Reversed(before, s[..], q0, p0);
  }

  method EndAt(s: array<char>, ghost q: nat, p: nat)
    requires q <= p < s.Length
    modifies s
    ensures s[p..][0] == '\0' && s[..q] == old(s[..q]) && s[q..p] == old(s[q..p])
  {
    s[p] := '\0';
  }

  lemma BackwardTwice(s: seq<char>)
    ensures Backward(Backward(s)) == s
  {
  }

  /** The digits of `u` and a NUL from `q` on. */
  method WriteDigits(u: nat, s: array<char>, q: nat, base: nat)
    requires 2 <= base <= 16 && q + |Digits(u, base)| < s.Length
    modifies s
    ensures var p := q + |Digits(u, base)|; s[q..p] == Digits(u, base) && s[p] == '\0'
    ensures s[..q] == old(s[..q])
  {
    var p := Generate(u, s, q, base);
    EndAt(s, q, p);
    ghost var tail := s[p..];
    ReverseInPlace(s, q, p);
    BackwardTwice(Digits(u, base));
    assert s[p] == tail[0];
  }

  lemma {:induction false} NoNul(u: nat, base: nat)
    requires 2 <= base <= 16
    ensures '\0' !in Digits(u, base)
    decreases u
  {
    Division(u, base);
    if u >= base { NoNul(Quotient(u, base), base); }
  }

  /** The text is written from the beginning of the buffer; the result points behind a minus sign. */
  method Ltob(n: int, s: array<char>, b: int) returns (start: nat)
    requires -TWO31 <= n < TWO31 && (b == -10 || 2 <= b <= 16) && 34 <= s.Length
    modifies s
    ensures IsText(s, Text(n, b))
    ensures start == if b == -10 && n < 0 then 1 else 0
  {
    var u, q, base := if n < 0 then n + TWO32 else n, 0, b;
    if base == -10 {
      base := 10;
      if n < 0 {
        u := -n;
        s[0] := '-';
        q := 1;
      }
    }
    Pow32();
    DigitsLength(u, base, 32);
    ghost var sign := s[..q];
    WriteDigits(u, s, q, base);
    ghost var d := Digits(u, base);
    NoNul(u, base);
    assert s[..q + |d|] == s[..q] + s[q..q + |d|];
    assert Text(n, b) == sign + d;
    return q;
  }

  // ----- GetValue -----

  /** How many characters in front are digits of the base. */
  function Leading(s: seq<char>, base: int): (n: nat)
    ensures n <= |s| && AllDigits(s[..n], base) && (n < |s| ==> !IsDigit(s[n], base))
  {
    if s == [] || !IsDigit(s[0], base) then 0
    else
      var n := Leading(s[1..], base);
      assert s[..n + 1] == [s[0]] + s[1..][..n];
      n + 1
  }

  /** Only the digits before anything else count. */
  lemma {:induction false} LeadingOf(d: seq<char>, rest: seq<char>, base: int)
    requires AllDigits(d, base) && (rest != [] ==> !IsDigit(rest[0], base))
    ensures Leading(d + rest, base) == |d|
  {
    if d == [] {
      assert d + rest == rest;
    } else {
      assert (d + rest)[1..] == d[1..] + rest;
      LeadingOf(d[1..], rest, base);
    }
  }

  predicate IsSuffix(c: char) {
    var u := ToUpper(c as int);
    u == 'K' as int || u == 'M' as int || u == 'G' as int
  }

  /** Values count in kilobytes. */
  function Scaled(x: int, c: char): int {
    var u := ToUpper(c as int);
    if u == 'M' as int then Wrap(x * 1024) else if u == 'G' as int then Wrap(x * (1024 * 1024)) else x
  }

  /** The character behind the digits; the text ends with a NUL. */
  function Behind(text: seq<char>, base: int): char {
    if Leading(text, base) < |text| then text[Leading(text, base)] else '\0'
  }

  /** The number that is returned. */
  function Result(text: seq<char>, base: int, usesuffix: bool): int {
    var x := Wrap(Value(text[..Leading(text, base)], base));
    if usesuffix then Scaled(x, Behind(text, base)) else x
  }

  /** The text that is left: a suffix becomes a space. */
  function Left(text: seq<char>, base: int, usesuffix: bool): seq<char> {
    var k := Leading(text, base);
    if usesuffix && k < |text| && IsSuffix(text[k]) then [' '] + text[k + 1..] else text[k..]
  }

  /** Wrapping at every step is wrapping once. */
  lemma WrapStep(x: int, base: int, d: int)
    ensures Wrap(Wrap(x) * base + d) == Wrap(x * base + d)
  {
    var q := (x + TWO31) / TWO32;
    assert Wrap(x) == x - q * TWO32;
    assert Wrap(x) * base == x * base - (q * base) * TWO32;
    WrapAgain(x * base + d, Wrap(x) * base + d, -(q * base));
  }

  method CountDigits(line: array<char>, base: int, ghost text: seq<char>) returns (len: nat, result: int)
    requires IsText(line, text)
    ensures len == Leading(text, base) && result == Wrap(Value(text[..len], base))
  {
    len, result := 0, 0;
    while true
      invariant 0 <= len <= |text| && AllDigits(text[..len], base)
      invariant result == Wrap(Value(text[..len], base))
      decreases |text| - len
    {
      var digit := DigitOf(line[len]);
      assert line[len] == if len < |text| then text[len] else '\0';
      if digit == -1 || digit >= base {
        break;
      }
      ValueNext(text[..len], text[len], base);
      WrapStep(Value(text[..len], base), base, digit);
      assert text[..len + 1] == text[..len] + [text[len]];
      result := Wrap(result * base + digit);
      len := len + 1;
    }
    LeadingOf(text[..len], text[len..], base);
    assert text[..len] + text[len..] == text;
  }

  /** fmemcpy on one text: what stands from `len` on moves to the front, with its NUL. */
  method MoveDown(line: array<char>, len: nat, ghost left: seq<char>)
    requires len + |left| < line.Length && line[len..len + |left|] == left && line[len + |left|] == '\0'
    requires '\0' !in left
    modifies line
    ensures IsText(line, left)
  {
    var n := 0;
    while line[len + n] != '\0'
      invariant 0 <= n <= |left|
      decreases |left| - n
    {
      assert line[len + n] == line[len..len + |left|][n];
      n := n + 1;
    }
    var k := 0;
    while k < n + 1
      invariant 0 <= k <= n + 1
      invariant forall i :: 0 <= i < k ==> line[i] == old(line[len + i])
      invariant forall i :: k <= i < line.Length ==> line[i] == old(line[i])
    {
      line[k] := line[len + k];
      k := k + 1;
    }
  }

  method GetValue(line: array<char>, base: int, usesuffix: bool, ghost text: seq<char>) returns (result: int)
    requires IsText(line, text)
    modifies line
    ensures result == Result(text, base, usesuffix) && IsText(line, Left(text, base, usesuffix))
  {
    var len;
    len, result := CountDigits(line, base, text);
    assert line[len] == Behind(text, base);
    if usesuffix {
      var u := ToUpper(line[len] as int);
      if u == 'M' as int {
        result := Wrap(result * 1024);
        line[len] := ' ';
      } else if u == 'K' as int {
        line[len] := ' ';
      } else if u == 'G' as int {
        result := Wrap(result * (1024 * 1024));
        line[len] := ' ';
      }
    }
    ghost var left := Left(text, base, usesuffix);
    MoveDown(line, len, left);
  }

  /** What GetValue makes of digits and what stands behind them. */
  lemma ReadDigits(d: seq<char>, rest: seq<char>, base: int)
    requires AllDigits(d, base) && (rest != [] ==> !IsDigit(rest[0], base))
    ensures Result(d + rest, base, false) == Wrap(Value(d, base)) && Left(d + rest, base, false) == rest
  {
    LeadingOf(d, rest, base);
    assert (d + rest)[..|d|] == d && (d + rest)[|d|..] == rest;
  }

  /** A negative number is written as an unsigned one. */
  lemma WrapOfText(n: int, u: int)
    requires -TWO31 <= n < TWO31 && u == if n < 0 then n + TWO32 else n
    ensures Wrap(u) == n
  {
  }

  /**
   * GetValue on what ltob has written: every 32-bit number comes back, in every base, and whatever does not go on
   * with a digit of the base is left.
   */
  lemma RoundTrip(n: int, base: int, rest: seq<char>)
    requires -TWO31 <= n < TWO31 && 2 <= base <= 16 && (rest != [] ==> !IsDigit(rest[0], base))
    ensures Result(Text(n, base) + rest, base, false) == n
    ensures Left(Text(n, base) + rest, base, false) == rest
  {
    var u := if n < 0 then n + TWO32 else n;
    DigitsValue(u, base);
    DigitsAreDigits(u, base);
    WrapOfText(n, u);
    ReadDigits(Digits(u, base), rest, base);
  }

  /** With a suffix a number comes back scaled, and the suffix has become a space. */
  lemma RoundTripSuffix(n: int, base: int, suffix: char, rest: seq<char>)
    requires -TWO31 <= n < TWO31 && 2 <= base <= 16 && IsSuffix(suffix)
    ensures var t := Text(n, base) + [suffix] + rest;
            Result(t, base, true) == Scaled(n, suffix) && Left(t, base, true) == [' '] + rest
  {
    var t := Text(n, base) + [suffix] + rest;
    assert t == Text(n, base) + ([suffix] + rest);
    assert !IsDigit(suffix, base);
    RoundTrip(n, base, [suffix] + rest);
    LeadingOf(Digits(if n < 0 then n + TWO32 else n, base), [suffix] + rest, base) by {
      DigitsAreDigits(if n < 0 then n + TWO32 else n, base);
    }
  }

  /** A signed negative number is not read back: the sign is no digit. */
  lemma SignIsLost(n: int, rest: seq<char>)
    requires -TWO31 <= n < 0
    ensures Result(Text(n, -10) + rest, 10, false) == 0 && Left(Text(n, -10) + rest, 10, false) == Text(n, -10) + rest
  {
    var t := Text(n, -10) + rest;
    assert t[0] == '-';
    assert Leading(t, 10) == 0;
  }
}
