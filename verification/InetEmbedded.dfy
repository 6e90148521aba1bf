/** When inet_ntop6 (jni/compat/inet_ntop.c) prints an embedded IPv4 address, over the bytes
    of the address alone. */
module InetEmbedded {
  import opened InetDigits
  import opened InetGrammar
  import opened InetNtop
  import opened InetRoundTrip

  predicate AllZero(a: seq<Byte>, n: nat)
    requires n <= |a|
  { forall k :: 0 <= k < n ==> a[k] == 0 }

  /** An IPv4-compatible address whose IPv4 part does not begin with two zero octets, or an
      IPv4-mapped address. */
  predicate Compatible(a: seq<Byte>)
    requires |a| == 16
  { AllZero(a, 12) && (a[12] != 0 || a[13] != 0) }

  predicate Mapped(a: seq<Byte>)
    requires |a| == 16
  { AllZero(a, 10) && a[10] == 255 && a[11] == 255 }

  lemma ZeroWords(a: seq<Byte>, n: nat)
    requires |a| == 16 && 0 < n <= 8
    ensures ZeroRun(a, 0, n) <==> AllZero(a, 2 * n)
  {
    if ZeroRun(a, 0, n) {
      forall k | 0 <= k < 2 * n ensures a[k] == 0 { assert WordAt(a, k / 2) == 0; }
    }
  }

  lemma CompatibleRun(a: seq<Byte>)
    requires |a| == 16
    ensures BestRun(a) == Run(0, 6) <==> Compatible(a)
  {
    BestRunLeftmostLongest(a);
    ZeroWords(a, 6);
    ZeroWords(a, 7);
    var r := BestRun(a);
    if Compatible(a) {
      assert WordAt(a, 6) != 0;
      assert ZeroRun(a, 0, 6);
      assert ZeroRun(a, r.base, r.base + r.len);
    }
    if r == Run(0, 6) { assert ZeroRun(a, 0, 6) && !ZeroRun(a, 0, 7); }
  }

  lemma MappedRun(a: seq<Byte>)
    requires |a| == 16
    ensures BestRun(a) == Run(0, 5) && WordAt(a, 5) == 0xffff <==> Mapped(a)
  {
    BestRunLeftmostLongest(a);
    ZeroWords(a, 5);
    var r := BestRun(a);
    if Mapped(a) {
      assert WordAt(a, 5) == 0xffff;
      assert ZeroRun(a, 0, 5);
      assert ZeroRun(a, r.base, r.base + r.len);
    }
    if r == Run(0, 5) { assert ZeroRun(a, 0, 5); }
  }

  lemma EmbedsIff(a: seq<Byte>)
    requires |a| == 16
    ensures Embeds(a, BestRun(a)) <==> Compatible(a) || Mapped(a)
  {
    CompatibleRun(a);
    MappedRun(a);
    BestRunLeftmostLongest(a);
  }

  lemma QuadHasDot(b: seq<Byte>)
    requires |b| == 4
    ensures '.' in Quad4(b)
  {
    var o := Numeral(b[0], Ten);
    assert Quad4(b)[|o|] == '.';
  }

  lemma RunThen(p: Parts, r: Run, first: string, rest: string)
    requires |p.word| == 8 && RunFits(p, r) && r.base == 0 && first == Body(p, r, 0) && rest == Body(p, r, r.base + r.len)
    ensures first == ":" + rest
  {
    HeadColon(p, r);
    RunText(p, r, 1);
  }

  lemma HeadColon(p: Parts, r: Run)
    requires |p.word| == 8 && InRun(r, 0) && r.base == 0
    ensures Body(p, r, 0) == ":" + Body(p, r, 1)
  {
  }

  lemma QuadPart(p: Parts, r: Run)
    requires |p.word| == 8 && p.embeds && r.base == 0 && r.len <= 6
    ensures Body(p, r, 6) == ":" + p.quad
  {
    BodyOut(p, r, 6, "");
    assert "" + Body(p, r, 6) == Body(p, r, 6) && "" + ":" == ":";
  }

  lemma CompatibleText(a: seq<Byte>)
    requires |a| == 16 && Compatible(a)
    ensures Print6(a) == "::" + Quad4(a[12..])
  {
    CompatibleRun(a);
    BestRunFits(a);
    CompatibleBody(PartsOf(a, BestRun(a)), BestRun(a));
  }

  lemma CompatibleBody(p: Parts, r: Run)
    requires |p.word| == 8 && p.embeds && r == Run(0, 6)
    ensures Body(p, r, 0) == "::" + p.quad
  {
    RunThen(p, r, Body(p, r, 0), Body(p, r, 6));
    QuadPart(p, r);
    TwoColons(p.quad);
  }

  lemma TwoColons(q: string)
    ensures ":" + (":" + q) == "::" + q
  {
  }

  lemma AllOnesText()
    ensures HexText(0xffff) == "ffff"
  {
    assert 0xffff / 16 == 0xfff && 0xfff / 16 == 0xff && 0xff / 16 == 0xf;
    assert Numeral(0xf, Sixteen) == "f";
    assert Numeral(0xff, Sixteen) == Numeral(0xf, Sixteen) + "f";
    assert Numeral(0xfff, Sixteen) == Numeral(0xff, Sixteen) + "f";
    assert Numeral(0xffff, Sixteen) == Numeral(0xfff, Sixteen) + "f";
  }

  lemma MappedText(a: seq<Byte>)
    requires |a| == 16 && Mapped(a)
    ensures Print6(a) == "::ffff:" + Quad4(a[12..])
  {
    MappedRun(a);
    BestRunFits(a);
    AllOnesText();
    MappedBody(PartsOf(a, BestRun(a)), BestRun(a));
  }

  lemma MappedBody(p: Parts, r: Run)
    requires |p.word| == 8 && p.embeds && r == Run(0, 5) && p.word[5] == "ffff"
    ensures Body(p, r, 0) == "::ffff:" + p.quad
  {
    RunThen(p, r, Body(p, r, 0), Body(p, r, 5));
    WordFive(p, r);
    QuadPart(p, r);
    Joined(p.quad);
  }

  lemma WordFive(p: Parts, r: Run)
    requires |p.word| == 8 && r == Run(0, 5) && p.word[5] == "ffff"
    ensures Body(p, r, 5) == ":" + ("ffff" + Body(p, r, 6))
  {
    assert Piece(p, r, 5) == p.word[5] + Body(p, r, 6);
    BodyOut(p, r, 5, "");
    assert "" + Body(p, r, 5) == Body(p, r, 5) && "" + ":" == ":";
  }

  lemma Joined(q: string)
    ensures ":" + (":" + ("ffff" + (":" + q))) == "::ffff:" + q
  {
  }

  /** Exactly the IPv4-compatible and the IPv4-mapped addresses are printed with a dotted
      quad, and these as "::" or "::ffff:" and the four octets in decimal. */
  lemma EmbeddedExact(a: seq<Byte>)
    requires |a| == 16
    ensures '.' in Print6(a) <==> Compatible(a) || Mapped(a)
    ensures Compatible(a) ==> Print6(a) == "::" + Quad4(a[12..])
    ensures Mapped(a) ==> Print6(a) == "::ffff:" + Quad4(a[12..])
  {
    EmbedsIff(a);
    QuadHasDot(a[12..]);
    if Compatible(a) {
      CompatibleText(a);
    } else if Mapped(a) {
      MappedText(a);
    } else {
      var p := PartsOf(a, BestRun(a));
      forall k | 0 <= k < 8 ensures '.' !in p.word[k] { assert AllHex(p.word[k]); }
      BodyLacks(p, BestRun(a), 0, '.');
    }
  }
}
