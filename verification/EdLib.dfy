/** The block commands of edlin/edlib.c over the global buffer of lines. */
module EdLib {
  import opened Bytes
  import opened Commons
  import opened DynStr
  import opened DynArray

  type Line = seq<byte>

  /** The lines outside line1..line2. */
  function Without<T>(lines: seq<T>, line1: nat, line2: nat): seq<T>
    requires line1 <= line2 < |lines|
  {
    lines[..line1] + lines[line2 + 1..]
  }

  /** The block line1..line2 cut out and put back just before what was line `line3`. */
  function CutAndPaste<T>(lines: seq<T>, line1: nat, line2: nat, line3: nat): seq<T>
    requires line1 <= line2 < |lines| && line3 <= |lines| && !(line1 < line3 <= line2)
  {
    var place := if line3 <= line1 then line3 else line3 - (line2 - line1 + 1);
    Splice(Without(lines, line1, line2), place, 0, lines[line1..line2 + 1])
  }

  lemma MultisetOfMiddle<T>(a: seq<T>, b: seq<T>, c: seq<T>)
    ensures multiset(a + b + c) == multiset(a + c) + multiset(b)
  {
  }

  /** Moving loses and duplicates no line. */
  lemma CutAndPasteIsPermutation<T>(lines: seq<T>, line1: nat, line2: nat, line3: nat)
    requires line1 <= line2 < |lines| && line3 <= |lines| && !(line1 < line3 <= line2)
    ensures multiset(CutAndPaste(lines, line1, line2, line3)) == multiset(lines)
  {
    var block := lines[line1..line2 + 1];
    var rest := Without(lines, line1, line2);
    var place := if line3 <= line1 then line3 else line3 - |block|;
    MultisetOfMiddle(lines[..line1], block, lines[line2 + 1..]);
    MultisetOfMiddle(rest[..place], block, rest[place..]);
    assert lines == lines[..line1] + block + lines[line2 + 1..];
    assert rest == rest[..place] + rest[place..];
  }

  /** The block stays whole, what was line `line3` comes right after it, and the other lines keep their order. */
  lemma CutAndPastePlaces<T>(lines: seq<T>, line1: nat, line2: nat, line3: nat)
    requires line1 <= line2 < |lines| && line3 <= |lines| && !(line1 < line3 <= line2)
    ensures var r := CutAndPaste(lines, line1, line2, line3);
            var n := line2 - line1 + 1;
            var place := if line3 <= line1 then line3 else line3 - n;
            && r[place..place + n] == lines[line1..line2 + 1]
            && Without(r, place, place + n - 1) == Without(lines, line1, line2)
            && (line3 < |lines| && line3 != line1 ==> r[place + n] == lines[line3])
  {
    var n := line2 - line1 + 1;
    var rest := Without(lines, line1, line2);
    var place := if line3 <= line1 then line3 else line3 - n;
    assert rest == rest[..place] + rest[place..];
  }

  lemma InsertInPlace<T>(c: seq<T>, line: nat)
    requires line < |c|
    ensures var block := c[line..line + 1];
            Splice(Splice(c, line, 0, block), line, 1, []) == CutAndPaste(c, line, line, line)
  {
    var block := c[line..line + 1];
    assert Splice(Splice(c, line, 0, block), line, 1, []) == c;
    assert c == c[..line] + block + c[line + 1..];
    assert Without(c, line, line)[..line] == c[..line] && Without(c, line, line)[line..] == c[line + 1..];
  }

  lemma InsertBehind<T>(c: seq<T>, line1: nat, line2: nat, line3: nat)
    requires line1 <= line2 < line3 <= |c|
    ensures var block := c[line1..line2 + 1];
            Splice(Splice(c, line3, 0, block), line1, |block|, []) == CutAndPaste(c, line1, line2, line3)
  {
    var head, block, mid, tail := c[..line1], c[line1..line2 + 1], c[line2 + 1..line3], c[line3..];
    var t := Splice(c, line3, 0, block);
    assert t == head + block + mid + block + tail;
    assert Splice(t, line1, |block|, []) == head + mid + block + tail;
    assert Without(c, line1, line2) == head + mid + tail;
    assert CutAndPaste(c, line1, line2, line3) == head + mid + block + tail;
  }

  /** The two orders in which move_block works come to the same. */
  lemma InsertThenRemove<T>(c: seq<T>, line1: nat, line2: nat, line3: nat)
    requires line1 <= line2 < |c| && line2 <= line3 <= |c| && !(line1 < line3 <= line2)
    ensures var block := c[line1..line2 + 1];
            Splice(Splice(c, line3, 0, block), line1, |block|, []) == CutAndPaste(c, line1, line2, line3)
  {
    if line2 == line3 { InsertInPlace(c, line1); } else { InsertBehind(c, line1, line2, line3); }
  }

  lemma RemoveThenInsert<T>(c: seq<T>, line1: nat, line2: nat, line3: nat)
    requires line1 <= line2 < |c| && line3 <= line1
    ensures var block := c[line1..line2 + 1];
            Splice(Splice(c, line1, |block|, []), line3, 0, block) == CutAndPaste(c, line1, line2, line3)
  {
    assert Splice(c, line1, line2 + 1 - line1, []) == Without(c, line1, line2);
  }

  /** Lines 338 and 339 */
  method MoveDown<T(0)>(buffer: Array<T>, line1: nat, line2: nat, line3: nat, block: seq<T>)
    requires buffer.Valid() && line1 <= line2 < buffer.len && line2 <= line3 <= buffer.len && !(line1 < line3 <= line2)
    requires block == buffer.Contents()[line1..line2 + 1] && buffer.len + |block| < NPOS
    modifies buffer.Repr()
    ensures buffer.Valid() && fresh(buffer.Repr() - old(buffer.Repr()))
    ensures buffer.Contents() == CutAndPaste(old(buffer.Contents()), line1, line2, line3)
  {
    InsertThenRemove(buffer.Contents(), line1, line2, line3);
    assert Items(block, |block|, 1) == block;
    var ok := buffer.Insert(line3, block, |block|, 1);
    ok := buffer.Remove(line1, |block|);
  }

  /** Lines 343 and 344 */
  method MoveUp<T(0)>(buffer: Array<T>, line1: nat, line2: nat, line3: nat, block: seq<T>)
    requires buffer.Valid() && line3 <= line1 <= line2 < buffer.len && block == buffer.Contents()[line1..line2 + 1]
    modifies buffer.Repr()
    ensures buffer.Valid() && fresh(buffer.Repr() - old(buffer.Repr()))
    ensures buffer.Contents() == CutAndPaste(old(buffer.Contents()), line1, line2, line3)
  {
    RemoveThenInsert(buffer.Contents(), line1, line2, line3);
    assert Items(block, |block|, 1) == block;
    var ok := buffer.Remove(line1, |block|);
    ok := buffer.Insert(line3, block, |block|, 1);
  }

  /** DAS_base: the elements of the array. */
  method Base<T(0)>(s: Array<T>) returns (r: seq<T>)
    requires s.Valid()
    ensures r == s.Contents()
  {
    r := if s.ptr == null then [] else s.ptr[..s.len];
  }

  method MoveBlock<T(0)>(buffer: Array<T>, line1: nat, line2: nat, line3: nat) returns (ok: bool)
    requires buffer.Valid() && line1 <= line2 && buffer.len + (line2 - line1 + 1) < NPOS
    modifies buffer.Repr()
    ensures buffer.Valid() && fresh(buffer.Repr() - old(buffer.Repr()))
    ensures ok == (line2 < old(buffer.len) && line3 <= old(buffer.len) && !(line1 < line3 <= line2))
    ensures buffer.Contents()
         == if ok then CutAndPaste(old(buffer.Contents()), line1, line2, line3) else old(buffer.Contents())
  {
    var s := new Array<T>();
    var numlines := buffer.len;
    if line1 >= numlines || line2 >= numlines || line3 > numlines || (line1 < line3 && line3 <= line2) {
      return false;
    }
    numlines := line2 - line1 + 1;
    ok := buffer.Subarray(s, line1, numlines);
    var block := Base(s);
    if line3 >= line2 {
      MoveDown(buffer, line1, line2, line3, block);
    } else {
      MoveUp(buffer, line1, line2, line3, block);
    }
  }

  /** Whatever `count` says, one copy is inserted. */
  method CopyBlock<T(0)>(buffer: Array<T>, line1: nat, line2: nat, line3: nat, count: nat) returns (ok: bool)
    requires buffer.Valid() && line1 <= line2 && buffer.len + (line2 - line1 + 1) < NPOS
    modifies buffer.Repr()
    ensures buffer.Valid() && fresh(buffer.Repr() - old(buffer.Repr()))
    ensures ok == (line2 < old(buffer.len) && line3 <= old(buffer.len) && !(line1 < line3 <= line2))
    ensures !ok ==> buffer.Contents() == old(buffer.Contents())
    ensures ok ==> buffer.Contents() == Splice(old(buffer.Contents()), line3, 0, old(buffer.Contents())[line1..line2 + 1])
  {
    var s := new Array<T>();
    var numlines := buffer.len;
    if line1 >= numlines || line2 >= numlines || line3 > numlines || (line1 < line3 && line3 <= line2) {
      return false;
    }
    ghost var c := buffer.Contents();
    ok := buffer.Subarray(s, line1, line2 - line1 + 1);
    var block := Base(s);
    assert block == c[line1..line2 + 1] && buffer.Contents() == c;
    assert Items(block, |block|, 1) == block;
    ok := buffer.Insert(line3, block, |block|, 1);
  }

  const ULONG := 0x1_0000_0000

  /** A line number past the end stands for the last line; `unsigned long` wraps when there is none. */
  function Clip(line: nat, numlines: nat): nat {
    if line <= numlines then line else if numlines == 0 then ULONG - 1 else numlines - 1
  }

  method DeleteBlock<T(0)>(buffer: Array<T>, line1: nat, line2: nat) returns (ok: bool)
    requires buffer.Valid() && line1 < ULONG && line2 < ULONG
    modifies buffer.Repr()
    ensures buffer.Valid() && fresh(buffer.Repr() - old(buffer.Repr()))
    ensures var n := old(buffer.len);
            ok == (Clip(line1, n) <= Clip(line2, n) && (n == 0 ==> line1 == 0))
    ensures var c := old(buffer.Contents());
            var l1 := Clip(line1, |c|);
            buffer.Contents() == if ok then Splice(c, l1, Min(Clip(line2, |c|) - l1 + 1, |c| - l1), []) else c
  {
    var numlines := buffer.len;
    var l1 := Clip(line1, numlines);
    var l2 := Clip(line2, numlines);
    if l1 > l2 { return false; }
    var n := if l2 - l1 + 1 == ULONG then 0 else l2 - l1 + 1;
    ok := buffer.Remove(l1, n);
  }

  /** `p` is the first place of `s` at or after `from` where `pat` stands. */
  ghost predicate IsFirst(s: Line, pat: Line, from: nat, p: nat) {
    from <= p && MatchAt(s, pat, p) && forall q: nat :: from <= q < p ==> !MatchAt(s, pat, q)
  }

  ghost function First(s: Line, pat: Line, from: nat): (r: Option<nat>)
    ensures r.Some? ==> from <= r.value && r.value + |pat| <= |s|
  {
    if p: nat :| IsFirst(s, pat, from, p) then Some(p) else None
  }

  /** Only the first place has the pattern and has none before it. */
  lemma FirstIs(s: Line, pat: Line, from: nat, r: Option<nat>)
    requires r.Some? ==> IsFirst(s, pat, from, r.value)
    requires r == None ==> forall q: nat :: from <= q ==> !MatchAt(s, pat, q)
    ensures First(s, pat, from) == r
  {
  }

  lemma LeastMatch(s: Line, pat: Line, from: nat, q: nat) returns (p: nat)
    requires from <= q && MatchAt(s, pat, q)
    ensures IsFirst(s, pat, from, p)
    decreases q
  {
    if r: nat :| from <= r < q && MatchAt(s, pat, r) {
      p := LeastMatch(s, pat, from, r);
    } else {
      p := q;
    }
  }

  lemma FirstMatches(s: Line, pat: Line, from: nat)
    ensures First(s, pat, from).Some? ==> IsFirst(s, pat, from, First(s, pat, from).value)
    ensures First(s, pat, from) == None ==> forall q: nat :: from <= q ==> !MatchAt(s, pat, q)
  {
    if First(s, pat, from) == None {
      forall q: nat | from <= q ensures !MatchAt(s, pat, q) {
        if MatchAt(s, pat, q) { var p := LeastMatch(s, pat, from, q); }
      }
    }
  }

  lemma MatchInSuffix(s: Line, pat: Line, o: nat, q: nat)
    requires o <= |s|
    ensures MatchAt(s[o..], pat, q) <==> MatchAt(s, pat, o + q)
  {
    if o + q + |pat| <= |s| {
      assert s[o..][q..q + |pat|] == s[o + q..o + q + |pat|];
    }
  }

  /** Searching from `o` on is searching what is left after `o` characters. */
  lemma FirstInSuffix(s: Line, pat: Line, o: nat)
    requires o <= |s|
    ensures First(s, pat, o) == match First(s[o..], pat, 0) case None => None case Some(p) => Some(o + p)
  {
    var t := s[o..];
    FirstMatches(t, pat, 0);
    var r := match First(t, pat, 0) case None => None case Some(p) => Some(o + p);
    forall q: nat | o <= q ensures MatchAt(s, pat, q) <==> MatchAt(t, pat, q - o) {
      MatchInSuffix(s, pat, o, q - o);
    }
    FirstIs(s, pat, o, r);
  }

  /** Up to the end of the first match, a line is searched like the whole line. */
  lemma FirstInPrefix(s: Line, pat: Line, p: nat)
    requires First(s, pat, 0) == Some(p)
    ensures First(s[..p] + pat, pat, 0) == Some(p)
  {
    FirstMatches(s, pat, 0);
    var u := s[..p] + pat;
    assert u == s[..p + |pat|];
    forall q: nat | q < p ensures !MatchAt(u, pat, q) {
      assert u[q..q + |pat|] == s[q..q + |pat|];
      assert !MatchAt(s, pat, q);
    }
    FirstIs(u, pat, 0, Some(p));
  }

  /** Every leftmost, non-overlapping occurrence of `pat` replaced by `rep`. */
  ghost function ReplaceAll(t: Line, pat: Line, rep: Line): Line
    requires 0 < |pat|
    decreases |t|
  {
    match First(t, pat, 0)
    case None => t
    case Some(p) => t[..p] + rep + ReplaceAll(t[p + |pat|..], pat, rep)
  }

  function Join(pieces: seq<Line>, sep: Line): Line
    requires 0 < |pieces|
  {
    if |pieces| == 1 then pieces[0] else pieces[0] + sep + Join(pieces[1..], sep)
  }

  /** The pieces of `t` between the occurrences that ReplaceAll takes. */
  ghost function Pieces(t: Line, pat: Line): (r: seq<Line>)
    requires 0 < |pat|
    ensures 0 < |r|
    decreases |t|
  {
    match First(t, pat, 0)
    case None => [t]
    case Some(p) => [t[..p]] + Pieces(t[p + |pat|..], pat)
  }

  /** No piece holds the pattern, and none makes up a match with the start of the pattern that follows it. */
  ghost predicate ClearOf(pieces: seq<Line>, pat: Line)
    requires 0 < |pieces|
  {
    if |pieces| == 1 then First(pieces[0], pat, 0) == None
    else First(pieces[0] + pat, pat, 0) == Some(|pieces[0]|) && ClearOf(pieces[1..], pat)
  }

  lemma {:induction false} Rejoins(t: Line, pat: Line, rep: Line)
    requires 0 < |pat|
    ensures Join(Pieces(t, pat), rep) == ReplaceAll(t, pat, rep)
    decreases |t|
  {
    match First(t, pat, 0)
    case None =>
    case Some(p) =>
      var rest := t[p + |pat|..];
      Rejoins(rest, pat, rep);
      assert Pieces(t, pat) == [t[..p]] + Pieces(rest, pat);
      assert Pieces(t, pat)[1..] == Pieces(rest, pat);
  }

  lemma {:induction false} ReplaceByItself(t: Line, pat: Line)
    requires 0 < |pat|
    ensures ReplaceAll(t, pat, pat) == t
    decreases |t|
  {
    match First(t, pat, 0)
    case None =>
    case Some(p) =>
      ReplaceByItself(t[p + |pat|..], pat);
      FirstMatches(t, pat, 0);
      assert t == t[..p] + pat + t[p + |pat|..];
  }

  /** The line is its pieces joined by the pattern, and the result is the same pieces joined by the replacement. */
  lemma ReplaceAllRejoins(t: Line, pat: Line, rep: Line)
    requires 0 < |pat|
    ensures Join(Pieces(t, pat), pat) == t && Join(Pieces(t, pat), rep) == ReplaceAll(t, pat, rep)
  {
    Rejoins(t, pat, rep);
    Rejoins(t, pat, pat);
    ReplaceByItself(t, pat);
  }

  /** The occurrences taken are leftmost and do not overlap, and none is left over. */
  lemma {:induction false} PiecesAreClear(t: Line, pat: Line)
    requires 0 < |pat|
    ensures ClearOf(Pieces(t, pat), pat)
    decreases |t|
  {
    match First(t, pat, 0)
    case None =>
    case Some(p) =>
      PiecesAreClear(t[p + |pat|..], pat);
      FirstInPrefix(t, pat, p);
      assert Pieces(t, pat)[1..] == Pieces(t[p + |pat|..], pat);
  }

  /** A line after a session, how many matches have been offered, and whether one was taken. */
  datatype Edit = Edit(text: Line, asked: nat, changed: bool)

  /** The user takes the match number `k` when `says(k)`; after a refusal the search goes on one character later. */
  ghost function Substituted(t: Line, pat: Line, rep: Line, says: nat -> bool, k: nat): Edit
    requires 0 < |pat|
    decreases |t|
  {
    match First(t, pat, 0)
    case None => Edit(t, k, false)
    case Some(p) =>
      if says(k) then
        var e := Substituted(t[p + |pat|..], pat, rep, says, k + 1);
        Edit(t[..p] + rep + e.text, e.asked, true)
      else
        var e := Substituted(t[p + 1..], pat, rep, says, k + 1);
        Edit(t[..p + 1] + e.text, e.asked, e.changed)
  }

  /** Without verification the session is the replacement of all occurrences. */
  lemma {:induction false} WithoutQuestions(t: Line, pat: Line, rep: Line, says: nat -> bool, k: nat)
    requires 0 < |pat| && forall i :: says(i)
    ensures Substituted(t, pat, rep, says, k).text == ReplaceAll(t, pat, rep)
    ensures Substituted(t, pat, rep, says, k).changed <==> First(t, pat, 0).Some?
    decreases |t|
  {
    match First(t, pat, 0)
    case None =>
    case Some(p) => WithoutQuestions(t[p + |pat|..], pat, rep, says, k + 1);
  }

  lemma {:induction false} SubstitutedGrows(t: Line, pat: Line, rep: Line, says: nat -> bool, k: nat)
    requires 0 < |pat| <= |rep|
    ensures |t| <= |Substituted(t, pat, rep, says, k).text|
    decreases |t|
  {
    match First(t, pat, 0)
    case None =>
    case Some(p) => SubstitutedGrows(if says(k) then t[p + |pat|..] else t[p + 1..], pat, rep, says, k + 1);
  }

  /** A match at `p` with `n` characters, seen from the character `o` on. */
  lemma AroundMatch(cur: Line, o: nat, p: nat, n: nat, rep: Line, u: Line)
    requires o <= p && p + n <= |cur|
    ensures Splice(cur, p, n, rep)[p + |rep|..] == cur[p + n..] == cur[o..][p - o + n..]
    ensures cur[..o] + (cur[o..][..p - o] + rep + u) == Splice(cur, p, n, rep)[..p + |rep|] + u
  {
    assert cur[..o] + cur[o..][..p - o] == cur[..p];
    assert Splice(cur, p, n, rep)[..p + |rep|] == cur[..p] + rep;
  }

  lemma PastMatch(cur: Line, o: nat, p: nat, u: Line)
    requires o <= p < |cur|
    ensures cur[o..][p - o + 1..] == cur[p + 1..]
    ensures cur[..o] + (cur[o..][..p - o + 1] + u) == cur[..p + 1] + u
  {
    assert cur[..o] + cur[o..][..p - o + 1] == cur[..p + 1];
  }

  /** What becomes of the line when the text before `origpos` is settled and the rest is still to be searched. */
  ghost function Outlook(pat: Line, rep: Line, says: nat -> bool, cur: Line, origpos: nat, k: nat, changed: bool): Edit
    requires 0 < |pat| && origpos <= |cur|
  {
    var e := Substituted(cur[origpos..], pat, rep, says, k);
    Edit(cur[..origpos] + e.text, e.asked, changed || e.changed)
  }

  /** How far the inner loop has come towards `goal`. */
  ghost predicate Halfway(goal: Edit, pat: Line, rep: Line, says: nat -> bool, cur: Line, origpos: nat, k: nat,
                          changed: bool)
    requires 0 < |pat|
  {
    origpos <= |cur| && goal == Outlook(pat, rep, says, cur, origpos, k, changed)
  }

  lemma AtStart(t: Line, pat: Line, rep: Line, says: nat -> bool, k0: nat)
    requires 0 < |pat|
    ensures Halfway(Substituted(t, pat, rep, says, k0), pat, rep, says, t, 0, k0, false)
  {
    assert t[0..] == t;
  }

  lemma TurnTaken(goal: Edit, pat: Line, rep: Line, says: nat -> bool, cur: Line, o: nat, k: nat, changed: bool, p: nat)
    requires 0 < |pat| && Halfway(goal, pat, rep, says, cur, o, k, changed)
    requires First(cur, pat, o) == Some(p) && says(k)
    ensures Halfway(goal, pat, rep, says, Splice(cur, p, |pat|, rep), p + |rep|, k + 1, true)
  {
    FirstInSuffix(cur, pat, o);
    AroundMatch(cur, o, p, |pat|, rep, Substituted(cur[p + |pat|..], pat, rep, says, k + 1).text);
  }

  lemma TurnRefused(goal: Edit, pat: Line, rep: Line, says: nat -> bool, cur: Line, o: nat, k: nat, changed: bool, p: nat)
    requires 0 < |pat| && Halfway(goal, pat, rep, says, cur, o, k, changed)
    requires First(cur, pat, o) == Some(p) && !says(k)
    ensures Halfway(goal, pat, rep, says, cur, p + 1, k + 1, changed)
  {
    FirstInSuffix(cur, pat, o);
    PastMatch(cur, o, p, Substituted(cur[p + 1..], pat, rep, says, k + 1).text);
  }

  lemma Arrived(goal: Edit, pat: Line, rep: Line, says: nat -> bool, cur: Line, o: nat, k: nat, changed: bool)
    requires 0 < |pat| && Halfway(goal, pat, rep, says, cur, o, k, changed) && First(cur, pat, o) == None
    ensures goal == Edit(cur, k, changed)
  {
    FirstInSuffix(cur, pat, o);
  }

  lemma NeverShorter(goal: Edit, pat: Line, rep: Line, says: nat -> bool, cur: Line, o: nat, k: nat, changed: bool)
    requires 0 < |pat| <= |rep| && Halfway(goal, pat, rep, says, cur, o, k, changed)
    ensures |cur| <= |goal.text|
  {
    SubstitutedGrows(cur[o..], pat, rep, says, k);
  }

  /** One turn of the inner loop: no match, a replacement too long for DSreplace, a refusal, or the new text. */
  datatype Turn = NoMatch | TooLong | Refused(at: nat) | Taken(at: nat, text: Line)

  /** DSfind in the line */
  method FindIn(cur: Line, pat: Line, origpos: nat) returns (p: nat)
    requires |cur| < NPOS && 0 < |pat| && origpos <= |cur|
    ensures First(cur, pat, origpos) == if p == NPOS then None else Some(p)
  {
    var str := new DString();
    str.AssignSome(cur);
    p := str.Find(pat, origpos, |pat|);
    assert pat[..|pat|] == pat;
    forall q: nat | origpos <= q && (p == NPOS || q < p) ensures !MatchAt(cur, pat, q) {
      assert q < p ==> !MatchAt(str.Contents(), pat, q);
    }
    FirstIs(cur, pat, origpos, if p == NPOS then None else Some(p));
  }

  /** A string object with the given characters. */
  method Holding(t: Line) returns (d: DString)
    requires |t| < NPOS
    ensures fresh(d) && fresh(d.Repr()) && d.Valid() && d.Contents() == t
  {
    d := new DString();
    d.AssignSome(t);
  }

  /** DSassign of a line to a new string */
  method Duplicate(cur: Line) returns (dc: DString)
    requires |cur| < NPOS
    ensures fresh(dc) && fresh(dc.Repr()) && dc.Valid() && dc.Contents() == cur
  {
    var str := Holding(cur);
    dc := new DString();
    assert str.Taken(0, NPOS) == cur;
    var ok := dc.Assign(str, 0, NPOS);
  }

  /** The copy dc of the line with the match at `p` replaced by ds1; None where DSreplace aborts. */
  method Copied(cur: Line, p: nat, n: nat, rep: Line) returns (text: Option<Line>)
    requires |cur| < NPOS && p + n <= |cur| && |rep| < NPOS
    ensures text == if |cur| - n + |rep| < NPOS then Some(Splice(cur, p, n, rep)) else None
  {
    var ds1 := Holding(rep);
    var dc := Duplicate(cur);
    assert ds1.Taken(0, NPOS) == rep;
    var ok := dc.Replace(p, n, ds1, 0, NPOS);
    if !ok { return None; }
    var t := dc.Chars();
    return Some(t);
  }

  method OneTurn(ghost goal: Edit, pat: Line, rep: Line, says: nat -> bool, cur: Line, origpos: nat, k: nat,
                 ghost changed: bool)
    returns (r: Turn)
    requires 0 < |pat| && |rep| < NPOS && |cur| < NPOS && Halfway(goal, pat, rep, says, cur, origpos, k, changed)
    ensures match r
            case NoMatch => goal == Edit(cur, k, changed)
            case TooLong => |goal.text| + |rep| - |pat| >= NPOS
            case Refused(p) => origpos <= p < |cur| && Halfway(goal, pat, rep, says, cur, p + 1, k + 1, changed)
            case Taken(p, text) =>
              && origpos <= p && p + |pat| <= |cur| && |text| == |cur| - |pat| + |rep| < NPOS
              && Halfway(goal, pat, rep, says, text, p + |rep|, k + 1, true)
  {
    var p := FindIn(cur, pat, origpos);
    if p == NPOS {
      Arrived(goal, pat, rep, says, cur, origpos, k, changed);
      return NoMatch;
    }
    var dc := Copied(cur, p, |pat|, rep);
    if dc == None {
      NeverShorter(goal, pat, rep, says, cur, origpos, k, changed);
      return TooLong;
    }
    if says(k) {
      TurnTaken(goal, pat, rep, says, cur, origpos, k, changed, p);
      return Taken(p, dc.value);
    }
    TurnRefused(goal, pat, rep, says, cur, origpos, k, changed, p);
    return Refused(p);
  }

  /** The buffer is `c` with the text `cur` in the line. */
  ghost predicate Holds(buffer: Array<Line>, c: seq<Line>, line: nat, cur: Line)
    reads buffer, buffer.Repr()
  {
    buffer.Valid() && line < |c| && buffer.Contents() == c[line := cur]
  }

  method PutLine(buffer: Array<Line>, line: nat, text: Line, ghost c: seq<Line>, ghost cur: Line)
    requires Holds(buffer, c, line, cur)
    modifies buffer.Repr()
    ensures Holds(buffer, c, line, text) && buffer.ptr == old(buffer.ptr)
  {
    var ok := buffer.PutAt(line, text);
    assert c[line := cur][line := text] == c[line := text];
  }

  /** One turn of the inner loop, and whether there is another one. */
  method LineTurn(buffer: Array<Line>, line: nat, pat: Line, rep: Line, says: nat -> bool, cur0: Line, origpos0: nat,
                  k0: nat, changed0: bool, ghost goal: Edit, ghost c: seq<Line>)
    returns (more: bool, ok: bool, cur: Line, origpos: nat, k: nat, changed: bool)
    requires 0 < |pat| && |rep| < NPOS && |cur0| < NPOS && Holds(buffer, c, line, cur0)
    requires Halfway(goal, pat, rep, says, cur0, origpos0, k0, changed0)
    modifies buffer.Repr()
    ensures Holds(buffer, c, line, cur) && buffer.ptr == old(buffer.ptr)
    ensures if more then |cur| < NPOS && Halfway(goal, pat, rep, says, cur, origpos, k, changed)
            else if ok then goal == Edit(cur, k, changed) else |goal.text| + |rep| - |pat| >= NPOS
    ensures if more then |cur| - origpos < |cur0| - origpos0 else cur == cur0 && origpos == origpos0
  {
    var r := OneTurn(goal, pat, rep, says, cur0, origpos0, k0, changed0);
    match r {
      case NoMatch => return false, true, cur0, origpos0, k0, changed0;
      case TooLong => return false, false, cur0, origpos0, k0, changed0;
      case Refused(p) => return true, true, cur0, p + 1, k0 + 1, changed0;
      case Taken(p, text) =>
        PutLine(buffer, line, text, c, cur0);
        return true, true, text, p + |rep|, k0 + 1, true;
    }
  }

  /** The inner loop of replace_buffer; `ok` is false where DSreplace aborts. */
  method ReplaceLine(buffer: Array<Line>, line: nat, pat: Line, rep: Line, says: nat -> bool, k0: nat, ghost goal: Edit)
    returns (k: nat, changed: bool, ok: bool)
    requires buffer.Valid() && line < buffer.len && |buffer.Contents()[line]| < NPOS
    requires 0 < |pat| && |rep| < NPOS && Halfway(goal, pat, rep, says, buffer.Contents()[line], 0, k0, false)
    modifies buffer.Repr()
    ensures buffer.Valid() && buffer.ptr == old(buffer.ptr)
    ensures if ok then
              && buffer.Contents() == old(buffer.Contents())[line := goal.text]
              && k == goal.asked && changed == goal.changed
            else |goal.text| + |rep| - |pat| >= NPOS
  {
    ghost var c := buffer.Contents();
    var origpos: nat := 0;
    k, changed, ok := k0, false, true;
    var cur := buffer.ptr[line];
    assert c[line := cur] == c;
    var more := true;
    while more
      invariant Holds(buffer, c, line, cur) && buffer.ptr == old(buffer.ptr)
      invariant if more then |cur| < NPOS && Halfway(goal, pat, rep, says, cur, origpos, k, changed)
                else if ok then goal == Edit(cur, k, changed) else |goal.text| + |rep| - |pat| >= NPOS
      decreases |cur| - origpos, more
    {
      more, ok, cur, origpos, k, changed := LineTurn(buffer, line, pat, rep, says, cur, origpos, k, changed, goal, c);
    }
  }

  /** The buffer after a session over the lines lo..hi-1, the matches offered so far, and the last line changed. */
  datatype Session = Session(lines: seq<Line>, asked: nat, last: Option<nat>)

  ghost function Replaced(lines: seq<Line>, lo: nat, hi: nat, pat: Line, rep: Line, says: nat -> bool): (r: Session)
    requires lo <= hi <= |lines| && 0 < |pat|
    ensures |r.lines| == |lines|
    decreases hi
  {
    if hi == lo then Session(lines, 0, None)
    else
      var s := Replaced(lines, lo, hi - 1, pat, rep, says);
      var e := Substituted(lines[hi - 1], pat, rep, says, s.asked);
      Session(s.lines[hi - 1 := e.text], e.asked, if e.changed then Some(hi - 1) else s.last)
  }

  /** Lines outside the range are not touched. */
  lemma {:induction false} OthersUntouched(lines: seq<Line>, lo: nat, hi: nat, pat: Line, rep: Line,
                                           says: nat -> bool, i: nat)
    requires lo <= hi <= |lines| && 0 < |pat| && i < |lines| && !(lo <= i < hi)
    ensures Replaced(lines, lo, hi, pat, rep, says).lines[i] == lines[i]
    decreases hi
  {
    if lo < hi {
      OthersUntouched(lines, lo, hi - 1, pat, rep, says, i);
    }
  }

  /** Without verification every line of the range has all its occurrences replaced. */
  lemma {:induction false} RangeReplaced(lines: seq<Line>, lo: nat, hi: nat, pat: Line, rep: Line, says: nat -> bool, i: nat)
    requires lo <= i < hi <= |lines| && 0 < |pat| && forall k :: says(k)
    ensures Replaced(lines, lo, hi, pat, rep, says).lines[i] == ReplaceAll(lines[i], pat, rep)
    ensures var last := Replaced(lines, lo, hi, pat, rep, says).last;
            (last == None || last.value < i) ==> First(lines[i], pat, 0) == None
    decreases hi
  {
    var s := Replaced(lines, lo, hi - 1, pat, rep, says);
    WithoutQuestions(lines[hi - 1], pat, rep, says, s.asked);
    if i < hi - 1 {
      RangeReplaced(lines, lo, hi - 1, pat, rep, says, i);
    }
  }

  function Says(verify: bool, yn: nat -> bool): nat -> bool {
    (k: nat) => !verify || yn(k)
  }

  function Current(currentLine: nat, last: Option<nat>): nat {
    match last
    case None => currentLine
    case Some(i) => i + 1
  }

  /** The lines before `line` are done; `c` were the lines at the beginning. */
  ghost predicate Replacing(buffer: Array<Line>, c: seq<Line>, line1: nat, line: nat, ds: Line, ds1: Line,
                            says: nat -> bool, currentLine: nat, k: nat, r: nat)
    requires line1 <= line <= |c| && 0 < |ds|
    reads buffer, buffer.Repr()
  {
    var s := Replaced(c, line1, line, ds, ds1, says);
    buffer.Valid() && buffer.Contents() == s.lines && k == s.asked && r == Current(currentLine, s.last)
  }

  /** All questions about one line. */
  method ReplaceNext(buffer: Array<Line>, ghost currentLine: nat, ghost line1: nat, line: nat, ds: Line, ds1: Line,
                     says: nat -> bool, k0: nat, r0: nat, ghost c: seq<Line>)
    returns (k: nat, r: nat, ok: bool)
    requires line1 <= line < |c| && |c[line]| < NPOS && 0 < |ds| && |ds1| < NPOS
    requires Replacing(buffer, c, line1, line, ds, ds1, says, currentLine, k0, r0)
    modifies buffer.Repr()
    ensures buffer.Valid() && buffer.ptr == old(buffer.ptr)
    ensures if ok then Replacing(buffer, c, line1, line + 1, ds, ds1, says, currentLine, k, r)
            else |Replaced(c, line1, line + 1, ds, ds1, says).lines[line]| + |ds1| - |ds| >= NPOS
  {
    OthersUntouched(c, line1, line, ds, ds1, says, line);
    AtStart(c[line], ds, ds1, says, k0);
    var changed;
    k, changed, ok := ReplaceLine(buffer, line, ds, ds1, says, k0, Substituted(c[line], ds, ds1, says, k0));
    r := if ok && changed then line + 1 else r0;
  }

  /** Later lines do not change what has become of an earlier one. */
  lemma {:induction false} KeepsLength(lines: seq<Line>, lo: nat, mid: nat, hi: nat, pat: Line, rep: Line, says: nat -> bool)
    requires lo < mid <= hi <= |lines| && 0 < |pat|
    ensures Replaced(lines, lo, hi, pat, rep, says).lines[mid - 1] == Replaced(lines, lo, mid, pat, rep, says).lines[mid - 1]
    decreases hi
  {
    if mid < hi {
      KeepsLength(lines, lo, mid, hi - 1, pat, rep, says);
    }
  }

  /** Lines 640 to 663 */
  method ReplaceRange(buffer: Array<Line>, currentLine: nat, line1: nat, line2: nat, ds: Line, ds1: Line, says: nat -> bool)
    returns (r: nat, ok: bool)
    requires buffer.Valid() && line1 <= line2 < buffer.len && 0 < |ds| && |ds1| < NPOS
    requires forall i :: 0 <= i < buffer.len ==> |buffer.Contents()[i]| < NPOS
    modifies buffer.Repr()
    ensures buffer.Valid() && buffer.ptr == old(buffer.ptr)
    ensures var s := Replaced(old(buffer.Contents()), line1, line2 + 1, ds, ds1, says);
            if ok then buffer.Contents() == s.lines && r == Current(currentLine, s.last)
            else exists i :: line1 <= i <= line2 && |s.lines[i]| + |ds1| - |ds| >= NPOS
  {
    ghost var c := buffer.Contents();
    r, ok := currentLine, true;
    var line, k := line1, 0;
    while line <= line2
      invariant line1 <= line <= line2 + 1 && buffer.ptr == old(buffer.ptr)
      invariant Replacing(buffer, c, line1, line, ds, ds1, says, currentLine, k, r)
    {
      k, r, ok := ReplaceNext(buffer, currentLine, line1, line, ds, ds1, says, k, r, c);
      if !ok {
        KeepsLength(c, line1, line + 1, line2 + 1, ds, ds1, says);
        return;
      }
      line := line + 1;
    }
  }

  /** DScompare of the two strings */
  method Different(a: Line, b: Line) returns (d: bool)
    requires |a| < NPOS && |b| < NPOS
    ensures d <==> a != b
  {
    var s := new DString();
    s.AssignSome(a);
    var t := new DString();
    t.AssignSome(b);
    var r := Compare(s, t, 0, NPOS);
    assert s.Contents()[0..] == a && t.Contents()[..Min(NPOS, t.len)] == b;
    d := r.value != 0;
  }

  /** `yn(k)` is the user's answer to the match number `k`; `ok` is false where DSreplace aborts. */
  method ReplaceBuffer(buffer: Array<Line>, currentLine: nat, line1: nat, line2: nat, verify: bool,
                       ds: Line, ds1: Line, yn: nat -> bool) returns (r: nat, ok: bool)
    requires buffer.Valid() && line1 <= line2 < buffer.len && |ds| < NPOS && |ds1| < NPOS
    requires forall i :: 0 <= i < buffer.len ==> |buffer.Contents()[i]| < NPOS
    modifies buffer.Repr()
    ensures buffer.Valid() && buffer.ptr == old(buffer.ptr)
    ensures |ds| == 0 || ds == ds1 ==> ok && r == currentLine && buffer.Contents() == old(buffer.Contents())
    ensures 0 < |ds| && ds != ds1 ==>
              var s := Replaced(old(buffer.Contents()), line1, line2 + 1, ds, ds1, Says(verify, yn));
              if ok then buffer.Contents() == s.lines && r == Current(currentLine, s.last)
              else exists i :: line1 <= i <= line2 && |s.lines[i]| + |ds1| - |ds| >= NPOS
  {
    var different := Different(ds, ds1);
    if |ds| == 0 || !different { return currentLine, true; }
    r, ok := ReplaceRange(buffer, currentLine, line1, line2, ds, ds1, Says(verify, yn));
  }

  /** Line `i` holds the pattern. */
  ghost predicate Has(lines: seq<Line>, i: nat, pat: Line)
    requires i < |lines|
  {
    exists q: nat :: MatchAt(lines[i], pat, q)
  }

  /** The lines lo..hi-1 that hold the pattern, each of which is one question to the user. */
  ghost function Matching(lines: seq<Line>, lo: nat, hi: nat, pat: Line): set<int>
    requires hi <= |lines|
  {
    set j | lo <= j < hi && Has(lines, j, pat)
  }

  /** Every line from `lo` to hi - 1 that holds the pattern was declined when its turn came. */
  ghost predicate Declined(lines: seq<Line>, lo: nat, hi: nat, pat: Line, says: nat -> bool)
    requires hi <= |lines|
  {
    forall j :: lo <= j < hi && Has(lines, j, pat) ==> !says(|Matching(lines, lo, j, pat)|)
  }

  /** Line `i` holds the pattern and was accepted, and everything before it declined. */
  ghost predicate AcceptedAt(lines: seq<Line>, lo: nat, i: nat, pat: Line, says: nat -> bool)
    requires i < |lines|
  {
    lo <= i && Has(lines, i, pat) && says(|Matching(lines, lo, i, pat)|) && Declined(lines, lo, i, pat, says)
  }

  lemma OneMore(was: set<int>, now: set<int>, i: int, more: bool)
    requires i !in was && forall j :: j in now <==> j in was || (j == i && more)
    ensures |now| == |was| + if more then 1 else 0
  {
    var r := if more then was + {i} else was;
    assert forall j :: j in now <==> j in r;
    assert now == r;
  }

  lemma MatchingNext(lines: seq<Line>, lo: nat, i: nat, pat: Line)
    requires lo <= i < |lines|
    ensures |Matching(lines, lo, i + 1, pat)| == |Matching(lines, lo, i, pat)| + if Has(lines, i, pat) then 1 else 0
  {
    OneMore(Matching(lines, lo, i, pat), Matching(lines, lo, i + 1, pat), i, Has(lines, i, pat));
  }

  /** One line further: it does not hold the pattern, or it is accepted, or declined. */
  lemma DeclinedNext(lines: seq<Line>, lo: nat, i: nat, pat: Line, says: nat -> bool, k: nat)
    requires lo <= i < |lines| && Declined(lines, lo, i, pat, says) && k == |Matching(lines, lo, i, pat)|
    ensures if Has(lines, i, pat) && says(k) then AcceptedAt(lines, lo, i, pat, says)
            else Declined(lines, lo, i + 1, pat, says)
    ensures |Matching(lines, lo, i + 1, pat)| == if Has(lines, i, pat) then k + 1 else k
  {
    MatchingNext(lines, lo, i, pat);
  }

  lemma HasIsFirst(lines: seq<Line>, i: nat, pat: Line)
    requires i < |lines|
    ensures Has(lines, i, pat) <==> First(lines[i], pat, 0).Some?
  {
    FirstMatches(lines[i], pat, 0);
  }

  method SearchLine(buffer: Array<Line>, line: nat, ds: Line, ghost c: seq<Line>) returns (found: bool)
    requires buffer.Valid() && c == buffer.Contents() && line < |c| && |c[line]| < NPOS && 0 < |ds|
    ensures found <==> Has(c, line, ds)
  {
    HasIsFirst(c, line, ds);
    assert buffer.ptr[line] == c[line];
    var p := FindIn(buffer.ptr[line], ds, 0);
    found := p != NPOS;
  }

  /** The line after the one accepted, or the current line when every line in range that matches was declined. */
  method SearchBuffer(buffer: Array<Line>, currentLine: nat, line1: nat, line2: nat, verify: bool,
                      ds: Line, yn: nat -> bool) returns (r: nat)
    requires buffer.Valid() && line1 <= line2 < buffer.len
    requires forall i :: 0 <= i < buffer.len ==> |buffer.Contents()[i]| < NPOS
    ensures |ds| == 0 ==> r == currentLine
    ensures 0 < |ds| ==>
              || (r == currentLine && Declined(buffer.Contents(), line1, line2 + 1, ds, Says(verify, yn)))
              || (line1 < r <= line2 + 1 && AcceptedAt(buffer.Contents(), line1, r - 1, ds, Says(verify, yn)))
  {
    if |ds| != 0 {
      var says := Says(verify, yn);
      ghost var c := buffer.Contents();
      var line, k := line1, 0;
      while line <= line2
        invariant line1 <= line <= line2 + 1 && k == |Matching(c, line1, line, ds)|
        invariant Declined(c, line1, line, ds, says)
      {
        DeclinedNext(c, line1, line, ds, says, k);
        var found := SearchLine(buffer, line, ds, c);
        if found {
          if says(k) { return line + 1; }
          k := k + 1;
        }
        line := line + 1;
      }
    }
    return currentLine;
  }

  /** At most one line can be the accepted one, and then not everything was declined. */
  lemma AcceptedIsUnique(lines: seq<Line>, lo: nat, i: nat, hi: nat, pat: Line, says: nat -> bool)
    requires i < hi <= |lines| && AcceptedAt(lines, lo, i, pat, says)
    ensures !Declined(lines, lo, hi, pat, says)
    ensures forall j :: lo <= j < hi && AcceptedAt(lines, lo, j, pat, says) ==> j == i
  {
  }

  /** Without verification the accepted line is the first one that holds the pattern, and there is one if any does. */
  lemma AcceptedIsFirst(lines: seq<Line>, lo: nat, i: nat, hi: nat, pat: Line, says: nat -> bool)
    requires lo <= i < hi <= |lines| && forall k :: says(k)
    ensures AcceptedAt(lines, lo, i, pat, says) <==>
            Has(lines, i, pat) && forall j :: lo <= j < i ==> !Has(lines, j, pat)
    ensures Declined(lines, lo, hi, pat, says) <==> forall j :: lo <= j < hi ==> !Has(lines, j, pat)
  {
  }
}
