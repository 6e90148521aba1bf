/** The language of jni/compat/inet_pton.c, exactly.

    Section 2.2 of RFC 1884 gives three textual forms: eight groups, groups with one
    "::", and either of these with a dotted quad at the end.  A `Spelling` is the
    derivation of such a string: items, each a group with its colon or the second
    colon of "::", and a tail.  The theorems say that the parsers accept exactly the
    texts of well-formed spellings and what bytes each of them gets. */
module InetGrammar {
  import opened Basics
  import opened InetDigits
  import opened InetPton

  // ---------- dotted quads ----------

  predicate Octet(s: string) { s != "" && AllDec(s) && Dec(s) <= 255 }

  function Dotted(a: string, b: string, c: string, d: string): string {
    a + "." + b + "." + c + "." + d
  }

  lemma FirstDigit(digits: string, o: string)
    requires o != "" && AllDec(digits + o) && Dec(digits + o) <= 255
    ensures IsDec(o[0]) && AllDec(digits + [o[0]]) && Dec(digits + [o[0]]) <= 255 && digits + [o[0]] + o[1..] == digits + o
  {
    assert o[0] == (digits + o)[|digits|];
    assert digits + [o[0]] + o[1..] == digits + o;
    forall i | 0 <= i <= |digits| ensures IsDec((digits + [o[0]])[i]) { assert (digits + [o[0]])[i] == (digits + o)[i]; }
    ValuePrefix(digits + [o[0]], o[1..], Ten);
  }

  /** Reading the digits of one octet. */
  lemma {:induction false} V4Digits(done: seq<Byte>, digits: string, o: string, s: string)
    requires |done| <= 3 && AllDec(digits + o) && Dec(digits + o) <= 255
    ensures AllDec(digits) && Dec(digits) <= 255
    ensures V4From(done, digits, o + s) == V4From(done, digits + o, s)
    decreases |o|
  {
    ValuePrefix(digits, o, Ten);
    assert forall i :: 0 <= i < |digits| ==> digits[i] == (digits + o)[i];
    if o == "" {
      assert o + s == s && digits + o == digits;
    } else {
      FirstDigit(digits, o);
      assert (o + s)[1..] == o[1..] + s;
      V4Digits(done, digits + [o[0]], o[1..], s);
    }
  }

  lemma V4Dot(done: seq<Byte>, o: string, s: string)
    requires |done| < 3 && Octet(o)
    ensures V4From(done, "", o + "." + s) == V4From(done + [Dec(o)], "", s)
  {
    assert "" + o == o && o + "." + s == o + ("." + s) && ("." + s)[1..] == s;
    V4Digits(done, "", o, "." + s);
  }

  lemma QuadParses(a: string, b: string, c: string, d: string)
    requires Octet(a) && Octet(b) && Octet(c) && Octet(d)
    ensures ParseV4(Dotted(a, b, c, d)) == Some([Dec(a), Dec(b), Dec(c), Dec(d)])
  {
    var cd := c + "." + d;
    var bcd := b + "." + cd;
    assert Dotted(a, b, c, d) == a + "." + bcd;
    var one := [] + [Dec(a)];
    var two := one + [Dec(b)];
    V4Dot([], a, bcd);
    V4Dot(one, b, cd);
    V4Dot(two, c, d);
    V4Last(two + [Dec(c)], d);
    assert two + [Dec(c)] + [Dec(d)] == [Dec(a), Dec(b), Dec(c), Dec(d)];
  }

  lemma V4Last(done: seq<Byte>, o: string)
    requires |done| == 3 && Octet(o)
    ensures V4From(done, "", o) == Some(done + [Dec(o)])
  {
    assert o == o + "" && "" + o == o;
    V4Digits(done, "", o, "");
  }

  /** The octet o, which continues `digits`, and what follows it. */
  ghost predicate HeadOf(done: seq<Byte>, digits: string, s: string, o: string, rest: string) {
    && |done| <= 3 && AllDec(digits) && Dec(digits) <= 255
    && Octet(o) && digits + s == o + rest
    && if |done| == 3 then rest == "" && V4From(done, digits, s) == Some(done + [Dec(o)])
       else rest != "" && rest[0] == '.' && V4From(done, digits, s) == V4From(done + [Dec(o)], "", rest[1..])
  }

  /** An accepting run reads one octet, which continues `digits`, and then either ends
      as the fourth or goes on after a dot. */
  lemma {:induction false} V4Head(done: seq<Byte>, digits: string, s: string) returns (o: string, rest: string)
    requires |done| <= 3 && AllDec(digits) && Dec(digits) <= 255
    requires V4From(done, digits, s).Some?
    ensures HeadOf(done, digits, s, o, rest)
    decreases s
  {
    if s != "" && IsDec(s[0]) {
      assert digits + [s[0]] + s[1..] == digits + s;
      o, rest := V4Head(done, digits + [s[0]], s[1..]);
    } else {
      o, rest := digits, s;
    }
  }

  /** inet_pton4 accepts exactly four non-empty digit runs separated by dots, each of
      value at most 255, and yields their values. */
  lemma ParseV4Exact(s: string, bytes: seq<Byte>)
    ensures ParseV4(s) == Some(bytes) <==>
      exists a, b, c, d ::
        && Octet(a) && Octet(b) && Octet(c) && Octet(d) && s == Dotted(a, b, c, d)
        && bytes == [Dec(a), Dec(b), Dec(c), Dec(d)]
  {
    if ParseV4(s) == Some(bytes) {
      var a, b, c, d := FourOctets(s);
    }
    if a, b, c, d :|
      && Octet(a) && Octet(b) && Octet(c) && Octet(d) && s == Dotted(a, b, c, d)
      && bytes == [Dec(a), Dec(b), Dec(c), Dec(d)] {
      QuadParses(a, b, c, d);
    }
  }

  lemma FourOctets(s: string) returns (a: string, b: string, c: string, d: string)
    requires ParseV4(s).Some?
    ensures Octet(a) && Octet(b) && Octet(c) && Octet(d) && s == Dotted(a, b, c, d)
    ensures ParseV4(s).value == [Dec(a), Dec(b), Dec(c), Dec(d)]
  {
    var s1, s2, s3, s4;
    a, s1 := NextOctet([], s);
    assert [] + [Dec(a)] == [Dec(a)];
    b, s2 := NextOctet([Dec(a)], s1);
    assert [Dec(a)] + [Dec(b)] == [Dec(a), Dec(b)];
    c, s3 := NextOctet([Dec(a), Dec(b)], s2);
    assert [Dec(a), Dec(b)] + [Dec(c)] == [Dec(a), Dec(b), Dec(c)];
    d, s4 := NextOctet([Dec(a), Dec(b), Dec(c)], s3);
    JoinQuad(a, b, c, d);
  }

  lemma JoinQuad(a: string, b: string, c: string, d: string)
    ensures a + "." + (b + "." + (c + "." + d)) == Dotted(a, b, c, d)
  {
  }

  /** The next octet and what follows its dot. */
  lemma NextOctet(done: seq<Byte>, s: string) returns (o: string, rest: string)
    requires |done| <= 3 && V4From(done, "", s).Some?
    ensures Octet(o)
    ensures |done| == 3 ==> s == o && V4From(done, "", s) == Some(done + [Dec(o)])
    ensures |done| < 3 ==> s == o + "." + rest && V4From(done, "", s) == V4From(done + [Dec(o)], "", rest)
  {
    var t;
    o, t := V4Head(done, "", s);
    assert "" + s == s;
    if |done| == 3 {
      rest := "";
      assert o + "" == o;
    } else {
      rest := t[1..];
      assert t == "." + rest && o + "." + rest == o + t;
    }
  }

  // ---------- IPv6 spellings ----------

  datatype Item = Group(text: string) | Gap

  datatype Tail = NoTail | Word(text: string) | Quad(text: string)

  datatype Spelling = Spelling(items: seq<Item>, tail: Tail)

  /** One or more hexadecimal digits, in either case, for a value of 16 bits. */
  predicate Word16(s: string) { s != "" && AllHex(s) && Hex(s) < 0x10000 }

  predicate TailOk(t: Tail) {
    match t
    case NoTail => true
    case Word(w) => Word16(w)
    case Quad(q) => ParseV4(q).Some?
  }

  predicate ItemsOk(items: seq<Item>) {
    items == [] || ((items[0].Group? ==> Word16(items[0].text)) && ItemsOk(items[1..]))
  }

  predicate GapFree(items: seq<Item>) {
    items == [] || (items[0].Group? && GapFree(items[1..]))
  }

  predicate AtMostOneGap(items: seq<Item>) {
    items == [] || (if items[0].Gap? then GapFree(items[1..]) else AtMostOneGap(items[1..]))
  }

  function TailText(t: Tail): string {
    match t
    case NoTail => ""
    case Word(w) => w
    case Quad(q) => q
  }

  function Text(items: seq<Item>, tail: Tail): string {
    if items == [] then TailText(tail)
    else (if items[0].Gap? then ":" else items[0].text + ":") + Text(items[1..], tail)
  }

  /** The whole string; a "::" in front has no group before it to bring the first colon. */
  function Written(f: Spelling): string {
    (if f.items != [] && f.items[0].Gap? then ":" else "") + Text(f.items, f.tail)
  }

  function TailBytes(t: Tail): seq<Byte>
    requires TailOk(t)
  {
    match t
    case NoTail => []
    case Word(w) => WordBytes(Hex(w))
    case Quad(q) => ParseV4(q).value
  }

  /** The bytes spelled out, without the zeros that "::" stands for. */
  function Bytes(items: seq<Item>, tail: Tail): seq<Byte>
    requires ItemsOk(items) && TailOk(tail)
  {
    if items == [] then TailBytes(tail)
    else (if items[0].Gap? then [] else WordBytes(Hex(items[0].text))) + Bytes(items[1..], tail)
  }

  /** The byte position of the gap after `items`, when `at` bytes precede them. */
  function GapAt(at: nat, gap: Option<nat>, items: seq<Item>): Option<nat>
    decreases |items|
  {
    if items == [] then gap
    else if items[0].Gap? then GapAt(at, Some(at), items[1..])
    else GapAt(at + 2, gap, items[1..])
  }

  predicate WellFormed(f: Spelling) {
    && ItemsOk(f.items) && TailOk(f.tail) && AtMostOneGap(f.items)
    && (if GapFree(f.items) then |Bytes(f.items, f.tail)| == 16 else |Bytes(f.items, f.tail)| <= 16)
  }

  /** The sixteen bytes inet_pton6 makes of a well-formed spelling. */
  function Denotes(f: Spelling): (b: seq<Byte>)
    requires WellFormed(f)
  {
    var out := Bytes(f.items, f.tail);
    var g := GapAt(0, None, f.items);
    BytesFit(0, None, f.items, f.tail);
    if g.Some? then Expand(out, g.value) else out
  }

  lemma {:induction false} BytesFit(at: nat, gap: Option<nat>, items: seq<Item>, tail: Tail)
    requires ItemsOk(items) && TailOk(tail) && (gap.Some? ==> gap.value <= at)
    ensures GapAt(at, gap, items).Some? ==> GapAt(at, gap, items).value <= at + |Bytes(items, tail)|
    ensures GapFree(items) ==> GapAt(at, gap, items) == gap
    ensures gap.Some? || !GapFree(items) ==> GapAt(at, gap, items).Some?
    decreases |items|
  {
    if items != [] {
      if items[0].Gap? { BytesFit(at, Some(at), items[1..], tail); } else { BytesFit(at + 2, gap, items[1..], tail); }
    }
  }

  /** Reading hexadecimal digits only lengthens the open token. */
  lemma {:induction false} V6Digits(out: seq<Byte>, gap: Option<nat>, digits: string, w: string, s: string)
    requires ScanOk(out, gap, digits + w)
    ensures ScanOk(out, gap, digits)
    ensures V6From(out, gap, digits, w + s) == V6From(out, gap, digits + w, s)
    decreases |w|
  {
    ValuePrefix(digits, w, Sixteen);
    if w == "" {
      assert w + s == s && digits + w == digits;
    } else {
      assert w[0] == (digits + w)[|digits|];
      assert digits + [w[0]] + w[1..] == digits + w && (w + s)[1..] == w[1..] + s;
      ValuePrefix(digits + [w[0]], w[1..], Sixteen);
      V6Digits(out, gap, digits + [w[0]], w[1..], s);
    }
  }

  /** A dotted quad starts with the digits of its first octet and then a dot. */
  lemma QuadHead(q: string) returns (o: string, rest: string)
    requires ParseV4(q).Some?
    ensures Octet(o) && q == o + rest && rest != "" && rest[0] == '.'
    ensures AllHex(o) && Hex(o) < 0x10000
  {
    assert "" + q == q;
    o, rest := V4Head([], "", q);
    DecAsHex(o);
  }

  lemma TailParses(out: seq<Byte>, gap: Option<nat>, tail: Tail)
    requires ScanOk(out, gap, "") && TailOk(tail)
    requires |out| + |TailBytes(tail)| <= 16
    ensures V6From(out, gap, "", TailText(tail)) == Close(out + TailBytes(tail), gap)
  {
    match tail
    case NoTail => assert out + [] == out;
    case Word(w) =>
      assert "" + w == w && w + "" == w;
      V6Digits(out, gap, "", w, "");
    case Quad(q) =>
      V4Length([], "", q);
      var o, rest := QuadHead(q);
      assert "" + o == o;
      V6Digits(out, gap, "", o, rest);
  }

  lemma GroupParses(out: seq<Byte>, gap: Option<nat>, w: string, rest: string)
    requires ScanOk(out, gap, "") && Word16(w) && |out| + 2 <= 16
    ensures V6From(out, gap, "", w + ":" + rest) == V6From(out + WordBytes(Hex(w)), gap, "", rest)
  {
    assert "" + w == w && w + ":" + rest == w + (":" + rest) && (":" + rest)[1..] == rest;
    V6Digits(out, gap, "", w, ":" + rest);
  }

  lemma GapParses(out: seq<Byte>, rest: string)
    requires |out| <= 16
    ensures V6From(out, None, "", ":" + rest) == V6From(out, Some(|out|), "", rest)
  {
    assert (":" + rest)[1..] == rest;
  }

  /** Reading a group moves it from the spelling to the bytes stored. */
  lemma GroupStep(out: seq<Byte>, gap: Option<nat>, items: seq<Item>, tail: Tail, b: seq<Byte>)
    requires ScanOk(out, gap, "") && ItemsOk(items) && TailOk(tail) && items != [] && items[0].Group?
    requires |out| + |Bytes(items, tail)| <= 16 && b == WordBytes(Hex(items[0].text))
    ensures ScanOk(out + b, gap, "") && out + b + Bytes(items[1..], tail) == out + Bytes(items, tail)
    ensures V6From(out, gap, "", Text(items, tail)) == V6From(out + b, gap, "", Text(items[1..], tail))
  {
    var more := items[1..];
    GroupParses(out, gap, items[0].text, Text(more, tail));
    Associate(out, b, Bytes(more, tail));
  }

  /** Every spelling that fits is accepted, and its bytes are stored in order. */
  lemma {:induction false} Parses(out: seq<Byte>, gap: Option<nat>, items: seq<Item>, tail: Tail)
    requires ScanOk(out, gap, "") && ItemsOk(items) && TailOk(tail)
    requires if gap.Some? then GapFree(items) else AtMostOneGap(items)
    requires |out| + |Bytes(items, tail)| <= 16
    ensures var g := GapAt(|out|, gap, items);
      && (g.Some? ==> g.value <= |out| + |Bytes(items, tail)|)
      && V6From(out, gap, "", Text(items, tail)) == Close(out + Bytes(items, tail), g)
    decreases |items|
  {
    BytesFit(|out|, gap, items, tail);
    if items == [] {
      TailParses(out, gap, tail);
    } else if items[0].Gap? {
      GapParses(out, Text(items[1..], tail));
      Parses(out, Some(|out|), items[1..], tail);
      assert [] + Bytes(items[1..], tail) == Bytes(items[1..], tail);
    } else {
      var b := WordBytes(Hex(items[0].text));
      GroupStep(out, gap, items, tail, b);
      Parses(out + b, gap, items[1..], tail);
    }
  }

  /** What a spelling of the rest of the input says, when `n` bytes are stored. */
  ghost predicate SpellsRest(items: seq<Item>, tail: Tail, n: nat, gap: Option<nat>, text: string) {
    && ItemsOk(items) && TailOk(tail) && text == Text(items, tail)
    && (if gap.Some? then GapFree(items) else AtMostOneGap(items))
    && n + |Bytes(items, tail)| <= 16
    && (gap.None? && GapFree(items) ==> n + |Bytes(items, tail)| == 16)
  }

  lemma SpellsGap(more: seq<Item>, tail: Tail, n: nat, text: string)
    requires SpellsRest(more, tail, n, Some(n), text)
    ensures SpellsRest([Gap] + more, tail, n, None, ":" + text)
  {
    assert ([Gap] + more)[1..] == more;
    assert [] + Bytes(more, tail) == Bytes(more, tail);
  }

  lemma SpellsGroup(w: string, more: seq<Item>, tail: Tail, n: nat, gap: Option<nat>, text: string)
    requires Word16(w) && SpellsRest(more, tail, n + 2, gap, text)
    ensures SpellsRest([Group(w)] + more, tail, n, gap, w + ":" + text)
  {
    assert ([Group(w)] + more)[1..] == more;
  }

  lemma SpellsEnd(out: seq<Byte>, gap: Option<nat>, digits: string)
    requires ScanOk(out, gap, digits) && V6From(out, gap, digits, "").Some?
    ensures SpellsRest([], if digits == "" then NoTail else Word(digits), |out|, gap, digits)
  {
  }

  lemma SpellsQuad(out: seq<Byte>, gap: Option<nat>, digits: string, s: string)
    requires ScanOk(out, gap, digits) && V6From(out, gap, digits, s).Some?
    requires s != "" && !IsHex(s[0]) && s[0] != ':'
    ensures SpellsRest([], Quad(digits + s), |out|, gap, digits + s)
  {
    V4Length([], "", digits + s);
  }

  /** Conversely an accepting run spells out what it read. */
  lemma {:induction false} Spells(out: seq<Byte>, gap: Option<nat>, digits: string, s: string)
    returns (items: seq<Item>, tail: Tail)
    requires ScanOk(out, gap, digits) && V6From(out, gap, digits, s).Some?
    ensures SpellsRest(items, tail, |out|, gap, digits + s)
    decreases s
  {
    if s == "" {
      items, tail := [], if digits == "" then NoTail else Word(digits);
      SpellsEnd(out, gap, digits);
      assert digits + s == digits;
    } else if IsHex(s[0]) {
      ValueAppend(digits, s[0], Sixteen);
      items, tail := Spells(out, gap, digits + [s[0]], s[1..]);
      assert digits + [s[0]] + s[1..] == digits + s;
    } else if s[0] == ':' {
      items, tail := SpellsColon(out, gap, digits, s);
    } else {
      SpellsQuad(out, gap, digits, s);
      items, tail := [], Quad(digits + s);
    }
  }

  lemma ColonStep(out: seq<Byte>, gap: Option<nat>, digits: string, rest: string)
    requires ScanOk(out, gap, digits) && V6From(out, gap, digits, ":" + rest).Some?
    ensures digits == "" ==> gap.None? && V6From(out, Some(|out|), "", rest).Some?
    ensures digits != "" ==> |out| + 2 <= 16 && V6From(out + WordBytes(Hex(digits)), gap, "", rest).Some?
  {
    assert (":" + rest)[1..] == rest;
  }

  lemma {:induction false} SpellsColon(out: seq<Byte>, gap: Option<nat>, digits: string, s: string)
    returns (items: seq<Item>, tail: Tail)
    requires ScanOk(out, gap, digits) && V6From(out, gap, digits, s).Some? && s != "" && s[0] == ':'
    ensures SpellsRest(items, tail, |out|, gap, digits + s)
    decreases s, 0
  {
    var rest := s[1..];
    var more;
    assert s == ":" + rest;
    ColonStep(out, gap, digits, rest);
    if digits == "" {
      more, tail := Spells(out, Some(|out|), "", rest);
      items := [Gap] + more;
      assert SpellsRest(items, tail, |out|, gap, digits + s) by {
        assert "" + rest == rest && digits + s == ":" + rest;
        SpellsGap(more, tail, |out|, rest);
      }
    } else {
      more, tail := Spells(out + WordBytes(Hex(digits)), gap, "", rest);
      items := [Group(digits)] + more;
      assert SpellsRest(items, tail, |out|, gap, digits + s) by {
        assert "" + rest == rest && digits + s == digits + ":" + rest;
        SpellsGroup(digits, more, tail, |out|, gap, rest);
      }
    }
  }

  lemma WellFormedParses(f: Spelling)
    requires WellFormed(f)
    ensures ParseV6(Written(f)) == Some(Denotes(f))
  {
    var t := Text(f.items, f.tail);
    Parses([], None, f.items, f.tail);
    BytesFit(0, None, f.items, f.tail);
    assert [] + Bytes(f.items, f.tail) == Bytes(f.items, f.tail);
    if f.items != [] && f.items[0].Gap? {
      assert (":" + t)[1..] == t && t[0] == ':';
    } else {
      assert "" + t == t;
    }
  }

  /** The language of inet_pton6 and its meaning: a string is accepted with result `b`
      exactly when it is the text of a well-formed spelling that denotes `b`. */
  lemma ParseV6Exact(s: string, b: seq<Byte>)
    ensures ParseV6(s) == Some(b) <==>
      exists f: Spelling :: WellFormed(f) && Written(f) == s && Denotes(f) == b
  {
    if ParseV6(s) == Some(b) {
      var lead := s != "" && s[0] == ':';
      var t := if lead then s[1..] else s;
      var items, tail := Spells([], None, "", t);
      assert "" + t == t;
      var f := Spelling(items, tail);
      assert WellFormed(f);
      if lead {
        assert s == ":" + t;
      } else {
        assert "" + t == t;
      }
      WellFormedParses(f);
      assert Written(f) == s && Denotes(f) == b;
    }
    if f: Spelling :| WellFormed(f) && Written(f) == s && Denotes(f) == b {
      WellFormedParses(f);
    }
  }

  // ---------- the three forms of section 2.2 of RFC 1884 ----------

  /** Groups of at most four digits, octets of at most three, no colon left open at the
      end, and a "::" that stands for at least one group. */
  ghost predicate Rfc1884(f: Spelling) {
    && WellFormed(f)
    && (forall i :: 0 <= i < |f.items| && f.items[i].Group? ==> |f.items[i].text| <= 4)
    && (f.tail.Word? ==> |f.tail.text| <= 4) && (f.tail.Quad? ==> ShortQuad(f.tail.text))
    && (f.tail.NoTail? ==> f.items != [] && f.items[|f.items| - 1].Gap?)
    && (!GapFree(f.items) ==> |Bytes(f.items, f.tail)| <= 14)
  }

  /** A dotted quad of octets of one to three digits. */
  ghost predicate ShortQuad(q: string) {
    exists a, b, c, d :: q == Dotted(a, b, c, d) && ShortOctet(a) && ShortOctet(b) && ShortOctet(c) && ShortOctet(d)
  }

  predicate ShortOctet(o: string) { Octet(o) && |o| <= 3 }

  /** `k` is where the "::" stands among the items. */
  predicate GapIndex(items: seq<Item>, k: nat) { k < |items| && items[k].Gap? }

  /** The bytes spelled before and after the "::". */
  function Sides(f: Spelling, k: nat): (lr: (seq<Byte>, seq<Byte>))
    requires WellFormed(f) && GapIndex(f.items, k)
    ensures lr.0 + lr.1 == Bytes(f.items, f.tail)
  {
    BytesSplit(f.items, k, f.tail);
    (Bytes(f.items[..k], NoTail), Bytes(f.items[k + 1..], f.tail))
  }

  /** The address with "::" read as the zeros that fill it up. */
  function Filled(f: Spelling, k: nat): seq<Byte>
    requires WellFormed(f) && GapIndex(f.items, k)
  {
    var (l, r) := Sides(f, k);
    assert |l| + |r| == |Bytes(f.items, f.tail)|;
    l + Zeros(16 - |l| - |r|) + r
  }

  /** The bytes of one item. */
  function ItemBytes(item: Item): seq<Byte>
    requires item.Group? ==> Word16(item.text)
  { if item.Gap? then [] else WordBytes(Hex(item.text)) }

  lemma {:induction false} BytesSplit(items: seq<Item>, k: nat, tail: Tail)
    requires ItemsOk(items) && TailOk(tail) && GapIndex(items, k)
    ensures ItemsOk(items[..k]) && ItemsOk(items[k + 1..])
    ensures Bytes(items, tail) == Bytes(items[..k], NoTail) + Bytes(items[k + 1..], tail)
    decreases k
  {
    if k > 0 {
      var left, more := items[..k], items[1..];
      BytesSplit(more, k - 1, tail);
      assert more[..k - 1] == left[1..] && more[k..] == items[k + 1..] && left[0] == items[0];
      assert Bytes(left, NoTail) == ItemBytes(items[0]) + Bytes(left[1..], NoTail);
      Associate(ItemBytes(items[0]), Bytes(left[1..], NoTail), Bytes(items[k + 1..], tail));
    } else {
      assert items[..0] == [];
    }
  }

  lemma {:induction false} GapFreeAt(items: seq<Item>, k: nat)
    requires GapFree(items) && k < |items|
    ensures items[k].Group?
    decreases k
  {
    if k > 0 { GapFreeAt(items[1..], k - 1); }
  }

  lemma {:induction false} GapAtIndex(at: nat, items: seq<Item>, k: nat)
    requires ItemsOk(items) && AtMostOneGap(items) && GapIndex(items, k)
    ensures ItemsOk(items[..k]) && GapAt(at, None, items) == Some(at + |Bytes(items[..k], NoTail)|)
    decreases k
  {
    if k == 0 {
      assert items[..0] == [];
      BytesFit(at, Some(at), items[1..], NoTail);
    } else {
      if items[0].Gap? { GapFreeAt(items[1..], k - 1); }
      GapAtIndex(at + 2, items[1..], k - 1);
      assert items[1..][..k - 1] == items[..k][1..] && items[..k][0] == items[0];
    }
  }

  /** "::" means zero groups filling the address, except in a full address: there the
      bytes after it are lost.  Exactly when the two readings agree: */
  lemma GapMeaning(f: Spelling, k: nat)
    requires WellFormed(f) && GapIndex(f.items, k)
    ensures var (l, r) := Sides(f, k);
      Denotes(f) == Filled(f, k) <==> |l| + |r| < 16 || r == Zeros(|r|)
  {
    GapAtIndex(0, f.items, k);
    BytesSplit(f.items, k, f.tail);
    var (l, r) := Sides(f, k);
    ExpandMeaning(l, r);
  }

  lemma ExpandMeaning(l: seq<Byte>, r: seq<Byte>)
    requires |l| + |r| <= 16
    ensures Expand(l + r, |l|) == l + Zeros(16 - |l| - |r|) + r <==>
      |l| + |r| < 16 || r == Zeros(|r|)
  {
    assert (l + r)[..|l|] == l && (l + r)[|l|..] == r;
    if |l| + |r| == 16 {
      assert l + Zeros(0) + r == l + r;
      assert Expand(l + r, |l|)[|l|..] == Zeros(|r|);
    }
  }

  /** For every string of the three RFC 1884 forms inet_pton6 yields the bytes the RFC
      gives it. */
  lemma Rfc1884Parses(f: Spelling)
    requires Rfc1884(f)
    ensures ParseV6(Written(f)) == Some(Denotes(f))
    ensures GapFree(f.items) ==> Denotes(f) == Bytes(f.items, f.tail)
    ensures forall k: nat | GapIndex(f.items, k) :: Denotes(f) == Filled(f, k)
  {
    WellFormedParses(f);
    BytesFit(0, None, f.items, f.tail);
    forall k: nat | GapIndex(f.items, k) ensures Denotes(f) == Filled(f, k) { GapMeaning(f, k); }
  }

  /** n groups of "1" and then a "::". */
  function Ones(n: nat): seq<Item> { if n == 0 then [Gap] else [Group("1")] + Ones(n - 1) }

  /** A full address with a "::": "1:1:1:1:1:1:1::8". */
  const FULL := Spelling(Ones(7), Word("8"))

  lemma OneDigit(c: char)
    requires IsDec(c)
    ensures Word16([c]) && Hex([c]) == DigitValue(c)
  {
    assert "" + [c] == [c];
    ValueAppend("", c, Sixteen);
  }

  lemma {:induction false} OnesFacts(n: nat, at: nat, tail: Tail)
    requires TailOk(tail) && Word16("1")
    ensures ItemsOk(Ones(n)) && AtMostOneGap(Ones(n)) && !GapFree(Ones(n))
    ensures |Bytes(Ones(n), tail)| == 2 * n + |TailBytes(tail)| && GapAt(at, None, Ones(n)) == Some(at + 2 * n)
  {
    if n == 0 {
      assert Ones(0)[1..] == [];
    } else {
      OnesFacts(n - 1, at + 2, tail);
      assert Ones(n)[1..] == Ones(n - 1);
    }
  }

  /** Its last group, 8, is lost: "::" cannot stand for no group at all. */
  lemma FullGapLoses()
    ensures WellFormed(FULL) && TailBytes(FULL.tail) == [0, 8]
    ensures |Denotes(FULL)| == 16 && Denotes(FULL)[14..] == [0, 0]
    ensures ParseV6(Written(FULL)) == Some(Denotes(FULL))
  {
    OneDigit('1');
    OneDigit('8');
    OnesFacts(7, 0, FULL.tail);
    WellFormedParses(FULL);
  }
}
