/** The address parsers of jni/compat/inet_pton.c.

    A C string is the sequence of characters before its NUL.  `ParseV4` and
    `ParseV6` say what the two loops compute; the methods run the loops on the
    `tmp` arrays as the source does. */
module InetPton {
  import opened Basics
  import opened InetDigits

  // ---------- inet_pton4 ----------

  /** The rest of an inet_pton4 run: `done` holds the finished octets, `digits` the
      digits of the open one, `s` the characters not yet read. */
  function V4From(done: seq<Byte>, digits: string, s: string): Option<seq<Byte>>
    requires |done| <= 3 && AllDec(digits) && Dec(digits) <= 255
    decreases s
  {
    if s == "" then
      if |done| == 3 && digits != "" then Some(done + [Dec(digits)]) else None
    else if IsDec(s[0]) then
      if Dec(digits + [s[0]]) > 255 then None else V4From(done, digits + [s[0]], s[1..])
    else if s[0] == '.' && digits != "" && |done| < 3 then
      V4From(done + [Dec(digits)], "", s[1..])
    else None
  }

  function ParseV4(s: string): Option<seq<Byte>> { V4From([], "", s) }

  lemma V4Length(done: seq<Byte>, digits: string, s: string)
    requires |done| <= 3 && AllDec(digits) && Dec(digits) <= 255
    ensures V4From(done, digits, s).Some? ==> |V4From(done, digits, s).value| == 4
    decreases s
  {
    if s != "" && IsDec(s[0]) && Dec(digits + [s[0]]) <= 255 {
      V4Length(done, digits + [s[0]], s[1..]);
    } else if s != "" && s[0] == '.' && digits != "" && |done| < 3 {
      V4Length(done + [Dec(digits)], "", s[1..]);
    }
  }

  /** Where the scan of `src` stands before character `i`, with the open octet from `tok` on. */
  ghost predicate At4(src: string, done: seq<Byte>, tok: nat, i: nat) {
    && tok <= i <= |src| && |done| <= 3
    && AllDec(src[tok..i]) && Dec(src[tok..i]) <= 255
    && ParseV4(src) == V4From(done, src[tok..i], src[i..])
  }

  lemma At4Digit(src: string, done: seq<Byte>, tok: nat, i: nat)
    requires At4(src, done, tok, i) && i < |src| && IsDec(src[i])
    ensures AllDec(src[tok..i + 1]) && Dec(src[tok..i + 1]) == Dec(src[tok..i]) * 10 + DigitValue(src[i])
    ensures if Dec(src[tok..i + 1]) > 255 then ParseV4(src).None? else At4(src, done, tok, i + 1)
  {
    ValueAppend(src[tok..i], src[i], Ten);
    assert src[tok..i] + [src[i]] == src[tok..i + 1] && src[i..][1..] == src[i + 1..];
  }

  lemma At4Other(src: string, done: seq<Byte>, tok: nat, i: nat)
    requires At4(src, done, tok, i) && i < |src| && !IsDec(src[i])
    ensures if src[i] == '.' && tok < i && |done| < 3 then At4(src, done + [Dec(src[tok..i])], i + 1, i + 1)
      else ParseV4(src).None?
  {
    assert src[i..][1..] == src[i + 1..] && src[i + 1..i + 1] == "";
  }

  lemma At4End(src: string, done: seq<Byte>, tok: nat)
    requires At4(src, done, tok, |src|)
    ensures ParseV4(src) == if |done| == 3 && tok < |src| then Some(done + [Dec(src[tok..|src|])]) else None
  {
    assert src[|src|..] == "";
  }

  /** inet_pton4 with destination `dst + at`: writes four bytes there or nothing. */
  method Pton4(src: string, dst: array<Byte>, at: nat) returns (rc: int)
    requires at + 4 <= dst.Length
    modifies dst
    ensures rc == 1 || rc == 0
    ensures rc == 1 <==> ParseV4(src).Some?
    ensures rc == 1 ==> |ParseV4(src).value| == 4
    ensures rc == 1 ==> dst[..] == old(dst[..at]) + ParseV4(src).value + old(dst[at + 4..])
    ensures rc == 0 ==> dst[..] == old(dst[..])
  {
    var sawDigit, octets, i, tp := false, 0, 0, 0;
    var tmp := new Byte[4];
    tmp[0] := 0;
    ghost var tok := 0;
    assert src[0..0] == "" && src[0..] == src && tmp[..0] == [];
    while i < |src|
      invariant tok <= i <= |src| && 0 <= tp <= 3
      invariant dst[..] == old(dst[..])
      invariant fresh(tmp) && tmp.Length == 4
      invariant At4(src, tmp[..tp], tok, i) && tmp[tp] == Dec(src[tok..i])
      invariant sawDigit == (tok < i) && octets == tp + if sawDigit then 1 else 0
    {
      var ch := src[i];
      if IsDec(ch) {
        var ok := TakeDigit(src, tmp, tp, tok, i, ch);
        if !ok { return 0; }
        if !sawDigit {
          octets := octets + 1;
          if octets > 4 { return 0; }
          sawDigit := true;
        }
      } else {
        At4Other(src, tmp[..tp], tok, i);
        if !(ch == '.' && sawDigit) { return 0; }
        if octets == 4 { return 0; }
        tp := NextOctet(tmp, tp);
        tok := i + 1;
        assert src[tok..i + 1] == "";
        sawDigit := false;
      }
      i := i + 1;
    }
    At4End(src, tmp[..tp], tok);
    if octets < 4 { return 0; }
    assert tmp[..] == tmp[..3] + [tmp[3] as Byte];
    Copy4(tmp, dst, at);
    return 1;
  }

  /** One more digit of the open octet. */
  method TakeDigit(ghost src: string, tmp: array<Byte>, tp: nat, ghost tok: nat, ghost i: nat, ch: char) returns (ok: bool)
    requires tp < tmp.Length && i < |src| && ch == src[i] && IsDec(ch)
    requires At4(src, tmp[..tp], tok, i) && tmp[tp] == Dec(src[tok..i])
    modifies tmp
    ensures if ok then At4(src, tmp[..tp], tok, i + 1) && tmp[tp] == Dec(src[tok..i + 1]) else ParseV4(src).None?
  {
    At4Digit(src, tmp[..tp], tok, i);
    var new_ := tmp[tp] * 10 + DigitValue(ch);
    if new_ > 255 { return false; }
    ghost var done := tmp[..tp];
    tmp[tp] := new_;
    assert tmp[..tp] == done;
    return true;
  }

  /** *++tp = 0. */
  method NextOctet(tmp: array<Byte>, tp: nat) returns (next: nat)
    requires tp + 1 < tmp.Length
    modifies tmp
    ensures next == tp + 1 && tmp[..next] == old(tmp[..tp]) + [old(tmp[tp]) as Byte] && tmp[next] == 0
  {
    next := tp + 1;
    tmp[next] := 0;
  }

  /** memcpy of the four octets. */
  method Copy4(tmp: array<Byte>, dst: array<Byte>, at: nat)
    requires tmp.Length == 4 && tmp != dst && at + 4 <= dst.Length
    modifies dst
    ensures dst[..] == old(dst[..at]) + tmp[..] + old(dst[at + 4..])
  {
    forall k | 0 <= k < 4 { dst[at + k] := tmp[k]; }
  }

  // ---------- inet_pton6 ----------

  function Zeros(n: nat): (z: seq<Byte>) { seq(n, _ => 0) }

  /** The two network-order bytes of a group. */
  function WordBytes(v: int): (b: seq<Byte>)
    requires 0 <= v < 0x10000
    ensures |b| == 2 && (b[0] as int) * 256 + b[1] == v
  { [v / 256, v % 256] }

  /** What the shift by hand leaves when `out` was written and "::" stood at byte `g`.
      The moved bytes are zeroed behind the copy; in a full buffer source and
      destination coincide, so there they are zeroed and not moved. */
  function Expand(out: seq<Byte>, g: nat): (r: seq<Byte>)
    requires g <= |out| <= 16
    ensures |r| == 16
  {
    if |out| < 16 then out[..g] + Zeros(16 - |out|) + out[g..] else out[..g] + Zeros(16 - g)
  }

  /** The end of inet_pton6, after the last token was stored. */
  function Close(out: seq<Byte>, gap: Option<nat>): (r: Option<seq<Byte>>)
    requires |out| <= 16 && (gap.Some? ==> gap.value <= |out|)
  {
    if gap.Some? then Some(Expand(out, gap.value)) else if |out| == 16 then Some(out) else None
  }

  predicate ScanOk(out: seq<Byte>, gap: Option<nat>, digits: string) {
    && |out| <= 16 && (gap.Some? ==> gap.value <= |out|)
    && AllHex(digits) && Hex(digits) < 0x10000
  }

  /** The rest of an inet_pton6 run: bytes stored, byte position of "::", characters of
      the open token (they are what `curtok` points at), characters not yet read. */
  function V6From(out: seq<Byte>, gap: Option<nat>, digits: string, s: string): (r: Option<seq<Byte>>)
    requires ScanOk(out, gap, digits)
    decreases s
  {
    if s == "" then
      if digits == "" then Close(out, gap)
      else if |out| + 2 > 16 then None
      else Close(out + WordBytes(Hex(digits)), gap)
    else if IsHex(s[0]) then
      ValueAppend(digits, s[0], Sixteen);
      if Hex(digits + [s[0]]) > 0xffff then None else V6From(out, gap, digits + [s[0]], s[1..])
    else if s[0] == ':' then
      if digits == "" then
        if gap.Some? then None else V6From(out, Some(|out|), "", s[1..])
      else if |out| + 2 > 16 then None
      else V6From(out + WordBytes(Hex(digits)), gap, "", s[1..])
    else if s[0] == '.' && |out| + 4 <= 16 && ParseV4(digits + s).Some? then
      V4Length([], "", digits + s);
      Close(out + ParseV4(digits + s).value, gap)
    else None
  }

  /** A leading "::" loses its first colon; any other leading colon is refused. */
  function ParseV6(s: string): (r: Option<seq<Byte>>)
  {
    if |s| >= 1 && s[0] == ':' then
      if |s| >= 2 && s[1] == ':' then V6From([], None, "", s[1..]) else None
    else V6From([], None, "", s)
  }

  /** The bytes below `lo` and the k-th from the end, after i moves of an n-byte shift. */
  ghost predicate Shifted(now: seq<Byte>, was: seq<Byte>, lo: nat, n: nat, i: nat)
    requires |now| == |was| == 16 && i <= n && lo + n <= 16
  {
    && (forall k :: 0 <= k < lo + n - i ==> now[k] == was[k])
    && (lo + n < 16 ==> forall k :: 16 - i <= k < 16 ==> now[k] == was[lo + n - 16 + k])
    && (lo + n == 16 ==> forall k :: 16 - i <= k < 16 ==> now[k] == 0)
    && (forall k :: lo + n - i <= k < 16 - i ==> now[k] == 0)
  }

  lemma ShiftStep(now: seq<Byte>, was: seq<Byte>, lo: nat, n: nat, i: nat)
    requires |now| == |was| == 16 && 1 <= i <= n && lo + n <= 16 && Shifted(now, was, lo, n, i - 1)
    ensures Shifted(now[16 - i := now[lo + n - i]][lo + n - i := 0], was, lo, n, i)
  {
  }

  /** The overlapping in-place shift that opens the "::" gap. */
  method Shift(tmp: array<Byte>, colonp: nat, tp: nat)
    requires tmp.Length == 16 && colonp <= tp <= 16
    requires forall k :: tp <= k < 16 ==> tmp[k] == 0
    modifies tmp
    ensures tmp[..] == Expand(old(tmp[..tp]), colonp)
  {
    var n := tp - colonp;
    ghost var was := tmp[..];
    var i := 1;
    while i <= n
      invariant 1 <= i <= n + 1
      invariant Shifted(tmp[..], was, colonp, n, i - 1)
    {
      ghost var now := tmp[..];
      tmp[16 - i] := tmp[colonp + n - i];
      tmp[colonp + n - i] := 0;
      assert tmp[..] == now[16 - i := now[colonp + n - i]][colonp + n - i := 0];
      ShiftStep(now, was, colonp, n, i);
      i := i + 1;
    }
    assert was[..tp] == old(tmp[..tp]);
  }

  /** Where the scan of `src` stands before character `i`: what is left to do from
      here decides the result of the whole call. */
  ghost predicate At(src: string, out: seq<Byte>, gap: Option<nat>, curtok: nat, i: nat) {
    && curtok <= i <= |src|
    && ScanOk(out, gap, src[curtok..i])
    && ParseV6(src) == V6From(out, gap, src[curtok..i], src[i..])
  }

  lemma AtHex(src: string, out: seq<Byte>, gap: Option<nat>, curtok: nat, i: nat)
    requires At(src, out, gap, curtok, i) && i < |src| && IsHex(src[i])
    ensures AllHex(src[curtok..i + 1])
    ensures Hex(src[curtok..i + 1]) == Hex(src[curtok..i]) * 16 + DigitValue(src[i])
    ensures Hex(src[curtok..i + 1]) > 0xffff ==> ParseV6(src).None?
    ensures Hex(src[curtok..i + 1]) <= 0xffff ==> At(src, out, gap, curtok, i + 1)
  {
    ValueAppend(src[curtok..i], src[i], Sixteen);
    assert src[curtok..i] + [src[i]] == src[curtok..i + 1] && src[i..][1..] == src[i + 1..];
  }

  lemma AtColon(src: string, out: seq<Byte>, gap: Option<nat>, curtok: nat, i: nat)
    requires At(src, out, gap, curtok, i) && i < |src| && src[i] == ':'
    ensures curtok == i && gap.Some? ==> ParseV6(src).None?
    ensures curtok == i && gap.None? ==> At(src, out, Some(|out|), i + 1, i + 1)
    ensures curtok < i && |out| > 14 ==> ParseV6(src).None?
    ensures curtok < i && |out| <= 14 ==>
      At(src, out + WordBytes(Hex(src[curtok..i])), gap, i + 1, i + 1)
  {
    assert src[i..][1..] == src[i + 1..] && src[i + 1..i + 1] == "";
    assert curtok == i ==> src[curtok..i] == "";
  }

  lemma V6Other(out: seq<Byte>, gap: Option<nat>, digits: string, s: string, q: string)
    requires ScanOk(out, gap, digits) && s != "" && !IsHex(s[0]) && s[0] != ':' && q == digits + s
    ensures ParseV4(q).Some? ==> |ParseV4(q).value| == 4
    ensures V6From(out, gap, digits, s) ==
      if s[0] == '.' && |out| <= 12 && ParseV4(q).Some? then Close(out + ParseV4(q).value, gap) else None
  {
    V4Length([], "", q);
  }

  lemma AtOther(src: string, out: seq<Byte>, gap: Option<nat>, curtok: nat, i: nat, q: string)
    requires At(src, out, gap, curtok, i) && i < |src| && !IsHex(src[i]) && src[i] != ':' && q == src[curtok..]
    ensures ParseV4(q).Some? ==> |ParseV4(q).value| == 4
    ensures ParseV6(src) ==
      if src[i] == '.' && |out| <= 12 && ParseV4(q).Some? then Close(out + ParseV4(q).value, gap) else None
  {
    assert src[curtok..i] + src[i..] == q;
    V6Other(out, gap, src[curtok..i], src[i..], q);
  }

  lemma AtEnd(src: string, out: seq<Byte>, gap: Option<nat>, curtok: nat)
    requires At(src, out, gap, curtok, |src|)
    ensures curtok == |src| ==> ParseV6(src) == Close(out, gap)
    ensures curtok < |src| && |out| > 14 ==> ParseV6(src).None?
    ensures curtok < |src| && |out| <= 14 ==>
      ParseV6(src) == Close(out + WordBytes(Hex(src[curtok..|src|])), gap)
  {
    assert src[|src|..] == "";
  }

  method Pton6(src: string, dst: array<Byte>) returns (rc: int)
    requires dst.Length == 16
    modifies dst
    ensures rc == 1 || rc == 0
    ensures rc == 1 <==> ParseV6(src).Some?
    ensures rc == 1 ==> dst[..] == ParseV6(src).value
    ensures rc == 0 ==> dst[..] == old(dst[..])
  {
    var tmp := new Byte[16](_ => 0);
    var tp, colonp, i := 0, -1, 0;
    if |src| >= 1 && src[0] == ':' {
      i := 1;
      if !(|src| >= 2 && src[1] == ':') { return 0; }
    }
    var curtok, sawXdigit, val := i, false, 0;
    assert src[i..i] == "" && tmp[..0] == [] && src[0..] == src;
    while i < |src|
      invariant curtok <= i <= |src| && 0 <= tp <= 16 && -1 <= colonp <= tp
      invariant dst[..] == old(dst[..])
      invariant fresh(tmp) && tmp.Length == 16
      invariant forall k :: tp <= k < 16 ==> tmp[k] == 0
      invariant At(src, tmp[..tp], GapOf(colonp), curtok, i)
      invariant val == Hex(src[curtok..i]) && sawXdigit == (curtok < i)
    {
      var ch := src[i];
      if IsHex(ch) {
        AtHex(src, tmp[..tp], GapOf(colonp), curtok, i);
        val := val * 16 + DigitValue(ch);
        if val > 0xffff { return 0; }
        sawXdigit := true;
        i := i + 1;
      } else if ch == ':' {
        var ok;
        ok, tp, colonp := TakeColon(src, tmp, tp, colonp, curtok, i, sawXdigit, val);
        if !ok { return 0; }
        i := i + 1;
        curtok, sawXdigit, val := i, false, 0;
      } else {
        AtOther(src, tmp[..tp], GapOf(colonp), curtok, i, src[curtok..]);
        var ok := 0;
        if ch == '.' && tp + 4 <= 16 { ok := Pton4(src[curtok..], tmp, tp); }
        if ok <= 0 { return 0; }
        rc := Finish(tmp, tp + 4, colonp, dst);
        return;
      }
    }
    rc := EndScan(src, tmp, tp, colonp, curtok, sawXdigit, val, dst);
  }

  /** After the last character: store the open group, then finish. */
  method EndScan(ghost src: string, tmp: array<Byte>, tp: nat, colonp: int, ghost curtok: nat, sawXdigit: bool, val: int, dst: array<Byte>)
    returns (rc: int)
    requires tmp.Length == 16 && dst.Length == 16 && tmp != dst && -1 <= colonp <= tp <= 16
    requires At(src, tmp[..tp], GapOf(colonp), curtok, |src|) && val == Hex(src[curtok..|src|]) && sawXdigit == (curtok < |src|)
    requires forall k :: tp <= k < 16 ==> tmp[k] == 0
    modifies tmp, dst
    ensures rc == if ParseV6(src).Some? then 1 else 0
    ensures dst[..] == if rc == 1 then ParseV6(src).value else old(dst[..])
  {
    AtEnd(src, tmp[..tp], GapOf(colonp), curtok);
    var next := tp;
    if sawXdigit {
      if tp + 2 > 16 { return 0; }
      next := StoreWord(tmp, tp, val);
    }
    rc := Finish(tmp, next, colonp, dst);
  }

  /** The branch for a colon: the second of a "::", or the end of a group. */
  method TakeColon(ghost src: string, tmp: array<Byte>, tp: nat, colonp: int, ghost curtok: nat, ghost i: nat, sawXdigit: bool, val: int)
    returns (ok: bool, tp': nat, colonp': int)
    requires tmp.Length == 16 && tp <= 16 && -1 <= colonp <= tp && i < |src| && src[i] == ':'
    requires At(src, tmp[..tp], GapOf(colonp), curtok, i) && val == Hex(src[curtok..i]) && sawXdigit == (curtok < i)
    requires forall k :: tp <= k < 16 ==> tmp[k] == 0
    modifies tmp
    ensures !ok ==> ParseV6(src).None?
    ensures tp' <= 16 && -1 <= colonp' <= tp'
    ensures ok ==> At(src, tmp[..tp'], GapOf(colonp'), i + 1, i + 1) && forall k :: tp' <= k < 16 ==> tmp[k] == 0
  {
    AtColon(src, tmp[..tp], GapOf(colonp), curtok, i);
    ok, tp', colonp' := true, tp, colonp;
    if !sawXdigit {
      if colonp != -1 { return false, tp, colonp; }
      colonp' := tp;
    } else {
      if tp + 2 > 16 { return false, tp, colonp; }
      tp' := StoreWord(tmp, tp, val);
    }
  }

  /** `colonp` as an optional position; the null pointer is -1. */
  function GapOf(colonp: int): Option<nat>
    requires colonp >= -1
  { if colonp == -1 then None else Some(colonp) }

  method StoreWord(tmp: array<Byte>, tp: nat, val: int) returns (next: nat)
    requires tp + 2 <= tmp.Length && 0 <= val < 0x10000
    modifies tmp
    ensures next == tp + 2 && tmp[..next] == old(tmp[..tp]) + WordBytes(val)
    ensures forall k :: next <= k < tmp.Length ==> tmp[k] == old(tmp[k])
  {
    tmp[tp], tmp[tp + 1] := val / 256, val % 256;
    next := tp + 2;
  }

  /** After the loop: open the gap, check that the buffer is full, copy out. */
  method Finish(tmp: array<Byte>, tp: nat, colonp: int, dst: array<Byte>) returns (rc: int)
    requires tmp.Length == 16 && dst.Length == 16 && tmp != dst && -1 <= colonp <= tp <= 16
    requires forall k :: tp <= k < 16 ==> tmp[k] == 0
    modifies tmp, dst
    ensures var r := Close(old(tmp[..tp]), GapOf(colonp));
      && rc == (if r.Some? then 1 else 0)
      && dst[..] == if r.Some? then r.value else old(dst[..])
  {
    var end := tp;
    if colonp != -1 {
      Shift(tmp, colonp, tp);
      end := 16;
    }
    if end != 16 { return 0; }
    assert colonp == -1 ==> tmp[..] == old(tmp[..tp]);
    forall k | 0 <= k < 16 { dst[k] := tmp[k]; }
    assert dst[..] == tmp[..];
    return 1;
  }
}
