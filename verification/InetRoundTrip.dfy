/** Printing an IPv6 address and parsing the text gives the address back. */
module InetRoundTrip {
  import opened Basics
  import opened InetDigits
  import opened InetPton
  import opened InetGrammar
  import opened InetNtop

  /** The groups of words i to j-1, then `rest`. */
  function Groups(p: Parts, i: nat, j: nat, rest: seq<Item>): seq<Item>
    requires |p.word| == 8 && i <= j <= 8
    decreases j - i
  {
    if i == j then rest else [Group(p.word[i])] + Groups(p, i + 1, j, rest)
  }

  function LastPiece(p: Parts): Tail
    requires |p.word| == 8
  { if p.embeds then Tail.Quad(p.quad) else Tail.Word(p.word[7]) }

  function LastWord(p: Parts): nat { if p.embeds then 6 else 7 }

  /** The items from the run on: "::" and the words after it. */
  function AfterLeft(p: Parts, r: Run): seq<Item>
    requires |p.word| == 8 && RunFits(p, r) && r.base != -1
  {
    if r.base + r.len == 8 then [Gap] else [Gap] + Groups(p, r.base + r.len, LastWord(p), [])
  }

  function RunTail(p: Parts, r: Run): Tail
    requires |p.word| == 8
  { if r.base + r.len == 8 then NoTail else LastPiece(p) }

  /** The canonical spelling: words outside the run in shortest form, "::" for the run,
      a dotted quad at the end of an address that embeds IPv4. */
  function Canonical(p: Parts, r: Run): Spelling
    requires |p.word| == 8 && RunFits(p, r)
  {
    if r.base == -1 then Spelling(Groups(p, 0, 7, []), LastPiece(p))
    else Spelling(Groups(p, 0, r.base, AfterLeft(p, r)), RunTail(p, r))
  }

  // ---------- the printed text is the canonical spelling ----------

  lemma {:induction false} PieceText(p: Parts, r: Run, i: nat)
    requires |p.word| == 8 && RunFits(p, r) && i <= LastWord(p)
    requires r.base == -1 || r.base + r.len <= i
    ensures Piece(p, r, i) == Text(Groups(p, i, LastWord(p), []), LastPiece(p))
    decreases 8 - i
  {
    if i == LastWord(p) {
      assert p.word[i] + "" == p.word[i];
    } else {
      PieceText(p, r, i + 1);
      ConsText(Group(p.word[i]), Groups(p, i + 1, LastWord(p), []), LastPiece(p));
      BodyOut(p, r, i + 1, p.word[i]);
    }
  }

  lemma ConsText(item: Item, more: seq<Item>, tail: Tail)
    ensures Text([item] + more, tail) == (if item.Gap? then ":" else item.text + ":") + Text(more, tail)
  {
    assert ([item] + more)[1..] == more;
  }

  lemma {:induction false} RunText(p: Parts, r: Run, i: nat)
    requires |p.word| == 8 && RunFits(p, r) && r.base != -1 && r.base < i <= r.base + r.len
    ensures Body(p, r, i) == Body(p, r, r.base + r.len)
    decreases 8 - i
  {
    if i < r.base + r.len {
      RunText(p, r, i + 1);
      BodyIn(p, r, i, "");
    }
  }

  /** From the run on: one colon for the run, then the gap item and the rest. */
  lemma GapText(p: Parts, r: Run)
    requires |p.word| == 8 && RunFits(p, r) && r.base != -1
    ensures Body(p, r, r.base) == ":" + Text(AfterLeft(p, r), RunTail(p, r))
  {
    var e := r.base + r.len;
    RunText(p, r, r.base + 1);
    BodyIn(p, r, r.base, "");
    assert "" + Body(p, r, r.base) == Body(p, r, r.base) && "" + ":" == ":";
    if e == 8 {
      ConsText(Gap, [], NoTail);
      assert [Gap] + [] == [Gap];
    } else {
      PieceText(p, r, e);
      ConsText(Gap, Groups(p, e, LastWord(p), []), LastPiece(p));
      BodyOut(p, r, e, "");
      assert "" + Body(p, r, e) == Body(p, r, e);
    }
  }

  lemma LeftStep(p: Parts, r: Run, i: nat, t: string)
    requires |p.word| == 8 && i < 8 && !(i == 6 && p.embeds) && Body(p, r, i + 1) == ":" + t
    ensures Piece(p, r, i) == p.word[i] + ":" + t
  {
  }

  lemma {:induction false} LeftText(p: Parts, r: Run, i: nat)
    requires |p.word| == 8 && RunFits(p, r) && 0 <= i < r.base
    ensures Piece(p, r, i) == Text(Groups(p, i, r.base, AfterLeft(p, r)), RunTail(p, r))
    decreases 8 - i
  {
    var rest, tail := AfterLeft(p, r), RunTail(p, r);
    var more := Groups(p, i + 1, r.base, rest);
    if i + 1 < r.base { LeftText(p, r, i + 1); } else { GapText(p, r); }
    assert Body(p, r, i + 1) == ":" + Text(more, tail);
    LeftStep(p, r, i, Text(more, tail));
    ConsText(Group(p.word[i]), more, tail);
  }

  /** The printer writes the canonical spelling. */
  lemma PrintIsCanonical(p: Parts, r: Run)
    requires |p.word| == 8 && RunFits(p, r)
    ensures Body(p, r, 0) == Written(Canonical(p, r))
  {
    var f := Canonical(p, r);
    if r.base == 0 {
      GapText(p, r);
    } else {
      BodyOut(p, r, 0, "");
      if r.base == -1 { PieceText(p, r, 0); } else { LeftText(p, r, 0); }
      assert "" + Text(f.items, f.tail) == Text(f.items, f.tail);
    }
  }

  // ---------- the canonical spelling denotes the address ----------

  /** The parts spell the address: each word its two bytes, the quad the last four, and
      the run only zeros. */
  ghost predicate Spell(p: Parts, r: Run, a: seq<Byte>) {
    && |p.word| == 8 && |a| == 16 && RunFits(p, r)
    && (forall k :: 0 <= k < 8 ==> Word16(p.word[k]) && WordBytes(Hex(p.word[k])) == a[2 * k..2 * k + 2])
    && ParseV4(p.quad) == Some(a[12..])
    && (r.base != -1 ==> a[2 * r.base..2 * (r.base + r.len)] == Zeros(2 * r.len))
  }

  lemma WordText(a: seq<Byte>, i: nat)
    requires |a| == 16 && i < 8
    ensures Word16(HexText(WordAt(a, i))) && Hex(HexText(WordAt(a, i))) == WordAt(a, i)
  {
    NumeralValue(WordAt(a, i), Sixteen);
  }

  lemma WordSplit(a: seq<Byte>, i: nat)
    requires |a| == 16 && i < 8
    ensures WordBytes(WordAt(a, i)) == a[2 * i..2 * i + 2]
  {
  }

  lemma OctetText(b: Byte)
    ensures Octet(Numeral(b, Ten)) && Dec(Numeral(b, Ten)) == b
  {
    NumeralValue(b, Ten);
  }

  lemma FourText(b0: Byte, b1: Byte, b2: Byte, b3: Byte)
    ensures ParseV4(Dotted(Numeral(b0, Ten), Numeral(b1, Ten), Numeral(b2, Ten), Numeral(b3, Ten))) == Some([b0, b1, b2, b3])
  {
    OctetText(b0); OctetText(b1); OctetText(b2); OctetText(b3);
    QuadParses(Numeral(b0, Ten), Numeral(b1, Ten), Numeral(b2, Ten), Numeral(b3, Ten));
  }

  lemma QuadText(b: seq<Byte>)
    requires |b| == 4
    ensures ParseV4(Quad4(b)) == Some(b)
  {
    var b0, b1, b2, b3 := b[0], b[1], b[2], b[3];
    assert Quad4(b) == Dotted(Numeral(b0, Ten), Numeral(b1, Ten), Numeral(b2, Ten), Numeral(b3, Ten));
    assert b == [b0, b1, b2, b3];
    FourText(b0, b1, b2, b3);
  }

  lemma ZeroBytes(a: seq<Byte>, i: nat, j: nat)
    requires |a| == 16 && ZeroRun(a, i, j)
    ensures a[2 * i..2 * j] == Zeros(2 * j - 2 * i)
  {
    forall k | 2 * i <= k < 2 * j ensures a[k] == 0 { assert WordAt(a, k / 2) == 0; }
  }

  lemma PartsSpell(a: seq<Byte>, r: Run, p: Parts)
    requires |a| == 16 && r == BestRun(a) && p == PartsOf(a, r)
    ensures Spell(p, r, a)
  {
    BestRunFits(a);
    BestRunLeftmostLongest(a);
    QuadText(a[12..]);
    forall k | 0 <= k < 8
      ensures Word16(p.word[k]) && WordBytes(Hex(p.word[k])) == a[2 * k..2 * k + 2]
    {
      WordText(a, k);
      WordSplit(a, k);
    }
    if r.base != -1 { ZeroBytes(a, r.base, r.base + r.len); }
  }

  lemma {:induction false} GroupsOk(p: Parts, r: Run, a: seq<Byte>, i: nat, j: nat, rest: seq<Item>)
    requires Spell(p, r, a) && i <= j <= 8 && ItemsOk(rest)
    ensures ItemsOk(Groups(p, i, j, rest))
    decreases j - i
  {
    if i < j {
      GroupsOk(p, r, a, i + 1, j, rest);
      assert Groups(p, i, j, rest)[1..] == Groups(p, i + 1, j, rest);
    }
  }

  lemma {:induction false} GroupsBytes(p: Parts, r: Run, a: seq<Byte>, i: nat, j: nat, rest: seq<Item>, tail: Tail)
    requires Spell(p, r, a) && i <= j <= 8 && ItemsOk(rest) && TailOk(tail) && ItemsOk(Groups(p, i, j, rest))
    ensures Bytes(Groups(p, i, j, rest), tail) == a[2 * i..2 * j] + Bytes(rest, tail)
    decreases j - i
  {
    if i == j {
      assert a[2 * i..2 * j] + Bytes(rest, tail) == Bytes(rest, tail);
    } else {
      assert Groups(p, i, j, rest)[1..] == Groups(p, i + 1, j, rest);
      GroupsBytes(p, r, a, i + 1, j, rest, tail);
      SliceJoin(a, i, j, Bytes(rest, tail));
    }
  }

  lemma SliceJoin(a: seq<Byte>, i: nat, j: nat, b: seq<Byte>)
    requires |a| == 16 && i < j <= 8
    ensures a[2 * i..2 * i + 2] + (a[2 * (i + 1)..2 * j] + b) == a[2 * i..2 * j] + b
  {
  }

  lemma {:induction false} GroupsGapFree(p: Parts, i: nat, j: nat, rest: seq<Item>)
    requires |p.word| == 8 && i <= j <= 8
    ensures GapFree(Groups(p, i, j, rest)) == GapFree(rest)
    decreases j - i
  {
    if i < j {
      GroupsGapFree(p, i + 1, j, rest);
      assert Groups(p, i, j, rest)[1..] == Groups(p, i + 1, j, rest);
    }
  }

  lemma {:induction false} GroupsOneGap(p: Parts, i: nat, j: nat, rest: seq<Item>)
    requires |p.word| == 8 && i <= j <= 8 && AtMostOneGap(rest)
    ensures AtMostOneGap(Groups(p, i, j, rest))
    decreases j - i
  {
    if i < j {
      GroupsOneGap(p, i + 1, j, rest);
      assert Groups(p, i, j, rest)[1..] == Groups(p, i + 1, j, rest);
    }
  }

  lemma {:induction false} GroupsGapAt(p: Parts, i: nat, j: nat, rest: seq<Item>, at: nat)
    requires |p.word| == 8 && i <= j <= 8
    ensures GapAt(at, None, Groups(p, i, j, rest)) == GapAt(at + 2 * (j - i), None, rest)
    decreases j - i
  {
    if i < j {
      GroupsGapAt(p, i + 1, j, rest, at + 2);
      assert Groups(p, i, j, rest)[1..] == Groups(p, i + 1, j, rest);
    }
  }

  lemma LastPieceBytes(p: Parts, r: Run, a: seq<Byte>)
    requires Spell(p, r, a)
    ensures TailOk(LastPiece(p)) && TailBytes(LastPiece(p)) == a[2 * LastWord(p)..]
  {
    assert a[14..16] == a[14..];
  }

  lemma CanonicalNoRun(p: Parts, r: Run, a: seq<Byte>)
    requires Spell(p, r, a) && r.base == -1
    ensures WellFormed(Canonical(p, r)) && Denotes(Canonical(p, r)) == a
  {
    var items, tail := Groups(p, 0, 7, []), LastPiece(p);
    LastPieceBytes(p, r, a);
    GroupsOk(p, r, a, 0, 7, []);
    GroupsBytes(p, r, a, 0, 7, [], tail);
    GroupsGapFree(p, 0, 7, []);
    GroupsOneGap(p, 0, 7, []);
    BytesFit(0, None, items, tail);
    assert a[0..14] + a[14..] == a;
  }

  lemma AfterLeftBytes(p: Parts, r: Run, a: seq<Byte>)
    requires Spell(p, r, a) && r.base != -1
    ensures TailOk(RunTail(p, r)) && ItemsOk(AfterLeft(p, r))
    ensures Bytes(AfterLeft(p, r), RunTail(p, r)) == a[2 * (r.base + r.len)..]
  {
    var e, last := r.base + r.len, LastWord(p);
    if e == 8 {
      assert AfterLeft(p, r)[1..] == [];
    } else {
      assert AfterLeft(p, r)[1..] == Groups(p, e, last, []);
      LastPieceBytes(p, r, a);
      GroupsOk(p, r, a, e, last, []);
      GroupsBytes(p, r, a, e, last, [], LastPiece(p));
      SliceTail(a, 2 * e, 2 * last);
    }
  }

  lemma SliceTail(a: seq<Byte>, x: nat, y: nat)
    requires x <= y <= |a|
    ensures a[x..y] + a[y..] == a[x..]
  {
  }

  lemma AfterLeftGap(p: Parts, r: Run, at: nat)
    requires |p.word| == 8 && RunFits(p, r) && r.base != -1
    ensures var items := AfterLeft(p, r);
      AtMostOneGap(items) && !GapFree(items) && GapAt(at, None, items) == Some(at)
  {
    var e, last := r.base + r.len, LastWord(p);
    var right := if e == 8 then [] else Groups(p, e, last, []);
    assert AfterLeft(p, r)[1..] == right;
    if e < 8 { GroupsGapFree(p, e, last, []); }
    GapStays(at, Some(at), right);
  }

  lemma {:induction false} GapStays(at: nat, gap: Option<nat>, items: seq<Item>)
    requires GapFree(items)
    ensures GapAt(at, gap, items) == gap
    decreases |items|
  {
    if items != [] { GapStays(at + 2, gap, items[1..]); }
  }

  lemma CanonicalRunBytes(p: Parts, r: Run, a: seq<Byte>)
    requires Spell(p, r, a) && r.base != -1
    ensures var f := Canonical(p, r);
      ItemsOk(f.items) && TailOk(f.tail) && Bytes(f.items, f.tail) == a[..2 * r.base] + a[2 * (r.base + r.len)..]
  {
    var rest := AfterLeft(p, r);
    AfterLeftBytes(p, r, a);
    GroupsOk(p, r, a, 0, r.base, rest);
    GroupsBytes(p, r, a, 0, r.base, rest, RunTail(p, r));
  }

  lemma CanonicalRunGap(p: Parts, r: Run)
    requires |p.word| == 8 && RunFits(p, r) && r.base != -1
    ensures var items := Canonical(p, r).items;
      AtMostOneGap(items) && !GapFree(items) && GapAt(0, None, items) == Some(2 * r.base)
  {
    var rest := AfterLeft(p, r);
    AfterLeftGap(p, r, 2 * r.base);
    GroupsGapFree(p, 0, r.base, rest);
    GroupsOneGap(p, 0, r.base, rest);
    GroupsGapAt(p, 0, r.base, rest, 0);
  }

  lemma ExpandRun(a: seq<Byte>, i: nat, j: nat)
    requires |a| == 16 && i < j <= 8 && a[2 * i..2 * j] == Zeros(2 * (j - i))
    ensures Expand(a[..2 * i] + a[2 * j..], 2 * i) == a
  {
    var out := a[..2 * i] + a[2 * j..];
    assert out[..2 * i] == a[..2 * i] && out[2 * i..] == a[2 * j..];
    assert a == a[..2 * i] + a[2 * i..2 * j] + a[2 * j..];
  }

  lemma CanonicalRun(p: Parts, r: Run, a: seq<Byte>)
    requires Spell(p, r, a) && r.base != -1
    ensures WellFormed(Canonical(p, r)) && Denotes(Canonical(p, r)) == a
  {
    CanonicalRunBytes(p, r, a);
    CanonicalRunGap(p, r);
    DenotesRun(Canonical(p, r), a, r.base, r.len);
  }

  lemma DenotesRun(f: Spelling, a: seq<Byte>, i: nat, n: nat)
    requires |a| == 16 && 0 < n && i + n <= 8 && a[2 * i..2 * (i + n)] == Zeros(2 * n)
    requires ItemsOk(f.items) && TailOk(f.tail) && AtMostOneGap(f.items) && !GapFree(f.items)
    requires Bytes(f.items, f.tail) == a[..2 * i] + a[2 * (i + n)..] && GapAt(0, None, f.items) == Some(2 * i)
    ensures WellFormed(f) && Denotes(f) == a
  {
    ExpandRun(a, i, i + n);
    DenotesGap(f, 2 * i, a[..2 * i] + a[2 * (i + n)..]);
  }

  lemma DenotesGap(f: Spelling, g: nat, out: seq<Byte>)
    requires ItemsOk(f.items) && TailOk(f.tail) && AtMostOneGap(f.items) && !GapFree(f.items)
    requires Bytes(f.items, f.tail) == out && g <= |out| <= 16 && GapAt(0, None, f.items) == Some(g)
    ensures WellFormed(f) && Denotes(f) == Expand(out, g)
  {
  }

  /** The printed text of an address: a well-formed spelling of it that follows sections
      4.1 to 4.3 of RFC 5952 in its choice of run, digits and case. */
  lemma PrintedSpelling(a: seq<Byte>)
    requires |a| == 16
    ensures var r := BestRun(a); var p := PartsOf(a, r);
      && RunFits(p, r) && WellFormed(Canonical(p, r))
      && Print6(a) == Written(Canonical(p, r)) && Denotes(Canonical(p, r)) == a
  {
    var r := BestRun(a);
    var p := PartsOf(a, r);
    PartsSpell(a, r, p);
    PrintIsCanonical(p, r);
    if r.base == -1 { CanonicalNoRun(p, r, a); } else { CanonicalRun(p, r, a); }
  }

  lemma {:induction false} GroupsShort(p: Parts, i: nat, j: nat, rest: seq<Item>, k: nat)
    requires PartsFit(p) && i <= j <= 8 && k < |Groups(p, i, j, rest)|
    requires forall m :: 0 <= m < |rest| && rest[m].Group? ==> |rest[m].text| <= 4
    ensures Groups(p, i, j, rest)[k].Group? ==> |Groups(p, i, j, rest)[k].text| <= 4
    decreases j - i
  {
    if i < j && k > 0 { GroupsShort(p, i + 1, j, rest, k - 1); }
  }

  lemma {:induction false} GroupsLast(p: Parts, i: nat, j: nat, rest: seq<Item>)
    requires |p.word| == 8 && i <= j <= 8 && rest != []
    ensures Groups(p, i, j, rest) != [] && Groups(p, i, j, rest)[|Groups(p, i, j, rest)| - 1] == rest[|rest| - 1]
    decreases j - i
  {
    if i < j { GroupsLast(p, i + 1, j, rest); }
  }

  lemma CanonicalShort(p: Parts, r: Run, k: nat)
    requires PartsFit(p) && RunFits(p, r) && k < |Canonical(p, r).items|
    ensures var item := Canonical(p, r).items[k]; item.Group? ==> |item.text| <= 4
  {
    if r.base == -1 {
      GroupsShort(p, 0, 7, [], k);
    } else {
      var rest, e := AfterLeft(p, r), r.base + r.len;
      forall m | 0 <= m < |rest| && rest[m].Group? ensures |rest[m].text| <= 4 {
        GroupsShort(p, e, LastWord(p), [], m - 1);
      }
      GroupsShort(p, 0, r.base, rest, k);
    }
  }

  /** What the printer writes has one of the three forms of section 2.2 of RFC 1884. */
  lemma PrintedRfc1884(a: seq<Byte>)
    requires |a| == 16
    ensures var r := BestRun(a); var p := PartsOf(a, r);
      RunFits(p, r) && Rfc1884(Canonical(p, r)) && Print6(a) == Written(Canonical(p, r))
  {
    var r := BestRun(a);
    var p := PartsOf(a, r);
    PrintedSpelling(a);
    BestRunFits(a);
    PartsSpell(a, r, p);
    QuadShort(a[12..]);
    CanonicalRfc1884(p, r, a);
  }

  lemma QuadShort(b: seq<Byte>)
    requires |b| == 4
    ensures ShortQuad(Quad4(b))
  {
    DecNumeralWidth(b[0]); DecNumeralWidth(b[1]); DecNumeralWidth(b[2]); DecNumeralWidth(b[3]);
    OctetText(b[0]); OctetText(b[1]); OctetText(b[2]); OctetText(b[3]);
    assert Quad4(b) == Dotted(Numeral(b[0], Ten), Numeral(b[1], Ten), Numeral(b[2], Ten), Numeral(b[3], Ten));
  }

  lemma CanonicalRfc1884(p: Parts, r: Run, a: seq<Byte>)
    requires Spell(p, r, a) && PartsFit(p) && ShortQuad(p.quad) && WellFormed(Canonical(p, r))
    ensures Rfc1884(Canonical(p, r))
  {
    var f := Canonical(p, r);
    forall k | 0 <= k < |f.items| && f.items[k].Group? ensures |f.items[k].text| <= 4 { CanonicalShort(p, r, k); }
    if r.base != -1 {
      CanonicalRunBytes(p, r, a);
      GroupsLast(p, 0, r.base, AfterLeft(p, r));
    } else {
      GroupsGapFree(p, 0, 7, []);
    }
  }

  /** For every 128-bit address, parsing what the printer writes gives the address:
      the all-zero address, leading, inner and trailing zero runs, and both embedded
      IPv4 forms included. */
  lemma RoundTrip(a: seq<Byte>)
    requires |a| == 16
    ensures ParseV6(Print6(a)) == Some(a)
  {
    PrintedSpelling(a);
    var r := BestRun(a);
    WellFormedParses(Canonical(PartsOf(a, r), r));
  }

  /** Different addresses print differently. */
  lemma PrintInjective(a: seq<Byte>, b: seq<Byte>)
    requires |a| == 16 && |b| == 16 && Print6(a) == Print6(b)
    ensures a == b
  {
    RoundTrip(a);
    RoundTrip(b);
  }

  // ---------- through the C functions ----------

  /** A character of none of the texts put together, and not a colon, is not printed. */
  lemma {:induction false} BodyLacks(p: Parts, r: Run, i: nat, c: char)
    requires |p.word| == 8 && i <= 8 && c != ':' && (p.embeds ==> c !in p.quad)
    requires forall k :: 0 <= k < 8 ==> c !in p.word[k]
    ensures c !in Body(p, r, i)
    decreases 8 - i
  {
    if i < 8 { BodyLacks(p, r, i + 1, c); }
  }

  lemma QuadLacks(b: seq<Byte>, c: char)
    requires |b| == 4 && !IsDec(c) && c != '.'
    ensures c !in Quad4(b)
  {
    assert AllDec(Numeral(b[0], Ten)) && AllDec(Numeral(b[1], Ten));
    assert AllDec(Numeral(b[2], Ten)) && AllDec(Numeral(b[3], Ten));
  }

  lemma PrintNoNul(a: seq<Byte>)
    requires |a| == 16
    ensures '\0' !in Print6(a)
  {
    var p := PartsOf(a, BestRun(a));
    forall k | 0 <= k < 8 ensures '\0' !in p.word[k] { assert AllHex(p.word[k]); }
    QuadLacks(a[12..], '\0');
    BodyLacks(p, BestRun(a), 0, '\0');
  }

  method Strlen(text: array<char>, ghost s: string) returns (n: nat)
    requires |s| < text.Length && text[..|s|] == s && text[|s|] == '\0' && '\0' !in s
    ensures n == |s|
  {
    n := 0;
    while text[n] != '\0'
      invariant n <= |s|
      decreases |s| - n
    {
      n := n + 1;
    }
  }

  /** inet_ntop6 into a buffer of 46 characters, then inet_pton6 on that C string:
      it returns 1 and the sixteen bytes. */
  method PrintThenParse(a: seq<Byte>) returns (rc: int, back: array<Byte>)
    requires |a| == 16
    ensures rc == 1 && back.Length == 16 && back[..] == a
  {
    ghost var s := Print6(a);
    RoundTrip(a);
    Print6Width(a);
    PrintNoNul(a);
    var text := new char[46];
    var ok := Ntop6(a, text, 46);
    var n := Strlen(text, s);
    back := new Byte[16];
    rc := Pton6(text[..n], back);
  }
}
