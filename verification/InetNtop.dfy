/** The address printers of jni/compat/inet_ntop.c. */
module InetNtop {
  import opened InetDigits
  import opened InetGrammar

  function WordAt(a: seq<Byte>, i: nat): (w: nat)
    requires |a| == 16 && i < 8
    ensures w < 0x10000
  { a[2 * i] as int * 256 + a[2 * i + 1] }

  /** A run of zero words: first index and length; base -1 means none. */
  datatype Run = Run(base: int, len: int)

  const NONE := Run(-1, 0)

  predicate ZeroRun(a: seq<Byte>, i: int, j: int)
    requires |a| == 16
  {
    0 <= i < j <= 8 && forall k: int :: i <= k < j ==> WordAt(a, k) == 0
  }

  /** `r` is the leftmost longest run of zero words that ends by `hi`. */
  ghost predicate Longest(a: seq<Byte>, hi: int, r: Run)
    requires |a| == 16
  {
    if r.base == -1 then forall i, j :: ZeroRun(a, i, j) ==> j > hi
    else
      && ZeroRun(a, r.base, r.base + r.len) && r.base + r.len <= hi
      && forall i, j :: ZeroRun(a, i, j) && j <= hi ==> j - i <= r.len && (j - i == r.len ==> r.base <= i)
  }

  /** `cur` is the open run that ends at `i`, if the word before `i` is zero. */
  ghost predicate Open(a: seq<Byte>, i: int, cur: Run)
    requires |a| == 16 && 0 <= i <= 8
  {
    if cur.base == -1 then i == 0 || WordAt(a, i - 1) != 0
    else
      && ZeroRun(a, cur.base, i) && cur.len == i - cur.base
      && (cur.base == 0 || WordAt(a, cur.base - 1) != 0)
  }

  function Better(best: Run, cur: Run): Run {
    if cur.base != -1 && (best.base == -1 || cur.len > best.len) then cur else best
  }

  /** The run search from word `i` on. */
  function Search(a: seq<Byte>, i: nat, best: Run, cur: Run): Run
    requires |a| == 16 && i <= 8
    decreases 8 - i
  {
    if i == 8 then Better(best, cur)
    else if WordAt(a, i) == 0 then
      Search(a, i + 1, best, if cur.base == -1 then Run(i, 1) else Run(cur.base, cur.len + 1))
    else Search(a, i + 1, Better(best, cur), NONE)
  }

  /** The run the printer compresses: a run of one word is left alone. */
  function BestRun(a: seq<Byte>): Run
    requires |a| == 16
  {
    var r := Search(a, 0, NONE, NONE);
    if r.base != -1 && r.len < 2 then NONE else r
  }

  ghost predicate SearchInv(a: seq<Byte>, i: int, best: Run, cur: Run)
    requires |a| == 16 && 0 <= i <= 8
  {
    Open(a, i, cur) && Longest(a, if cur.base == -1 then i else cur.base, best)
  }

  lemma CloseRun(a: seq<Byte>, i: int, best: Run, cur: Run)
    requires |a| == 16 && 0 <= i <= 8 && SearchInv(a, i, best, cur)
    ensures Longest(a, i, Better(best, cur))
  {
    forall x, y | ZeroRun(a, x, y) && y <= i && cur.base != -1 && x < cur.base ensures y <= cur.base {
    }
  }

  lemma NextWord(a: seq<Byte>, i: int, best: Run, cur: Run)
    requires |a| == 16 && 0 <= i < 8 && SearchInv(a, i, best, cur)
    ensures WordAt(a, i) == 0 ==>
      SearchInv(a, i + 1, best, if cur.base == -1 then Run(i, 1) else Run(cur.base, cur.len + 1))
    ensures WordAt(a, i) != 0 ==> SearchInv(a, i + 1, Better(best, cur), NONE)
  {
    if WordAt(a, i) != 0 {
      CloseRun(a, i, best, cur);
      forall x, y | ZeroRun(a, x, y) && y <= i + 1 ensures y <= i {
      }
    }
  }

  lemma {:induction false} SearchLongest(a: seq<Byte>, i: nat, best: Run, cur: Run)
    requires |a| == 16 && i <= 8 && SearchInv(a, i, best, cur)
    ensures Longest(a, 8, Search(a, i, best, cur))
    decreases 8 - i
  {
    if i == 8 {
      CloseRun(a, i, best, cur);
    } else {
      NextWord(a, i, best, cur);
      if WordAt(a, i) == 0 {
        SearchLongest(a, i + 1, best, if cur.base == -1 then Run(i, 1) else Run(cur.base, cur.len + 1));
      } else {
        SearchLongest(a, i + 1, Better(best, cur), NONE);
      }
    }
  }

  /** Sections 4.2.2 and 4.2.3 of RFC 5952: the compressed run is the leftmost longest
      one, and no run is compressed exactly when none has two words. */
  lemma BestRunLeftmostLongest(a: seq<Byte>)
    requires |a| == 16
    ensures BestRun(a).base == -1 <==> forall i, j :: ZeroRun(a, i, j) ==> j - i < 2
    ensures BestRun(a).base != -1 ==> Longest(a, 8, BestRun(a)) && BestRun(a).len >= 2
  {
    SearchLongest(a, 0, NONE, NONE);
    var r := Search(a, 0, NONE, NONE);
    if r.base != -1 { assert ZeroRun(a, r.base, r.base + r.len); }
  }

  // ---------- formatting ----------

  function HexText(n: nat): string { Numeral(n, Sixteen) }

  function Quad4(b: seq<Byte>): string
    requires |b| == 4
  { Dotted(Numeral(b[0], Ten), Numeral(b[1], Ten), Numeral(b[2], Ten), Numeral(b[3], Ten)) }

  predicate InRun(r: Run, i: int) { r.base != -1 && r.base <= i < r.base + r.len }

  /** An IPv4-compatible or IPv4-mapped address. */
  predicate Embeds(a: seq<Byte>, r: Run)
    requires |a| == 16
  { r.base == 0 && (r.len == 6 || (r.len == 5 && WordAt(a, 5) == 0xffff)) }

  /** The texts the formatter puts together: one per word, and the dotted quad. */
  datatype Parts = Parts(word: seq<string>, quad: string, embeds: bool)

  function PartsOf(a: seq<Byte>, r: Run): (p: Parts)
    requires |a| == 16
    ensures |p.word| == 8 && p.quad == Quad4(a[12..]) && p.embeds == Embeds(a, r)
    ensures forall k :: 0 <= k < 8 ==> p.word[k] == HexText(WordAt(a, k))
  { Parts(seq(8, k requires 0 <= k < 8 => HexText(WordAt(a, k))), Quad4(a[12..]), Embeds(a, r)) }

  /** What the formatter still writes before word `i`. */
  function Body(p: Parts, r: Run, i: nat): string
    requires |p.word| == 8 && i <= 8
    decreases 8 - i, 1
  {
    if i == 8 then (if r.base != -1 && r.base + r.len == 8 then ":" else "")
    else if InRun(r, i) then (if i == r.base then ":" else "") + Body(p, r, i + 1)
    else (if i != 0 then ":" else "") + Piece(p, r, i)
  }

  /** The same, past the colon before a word outside the run. */
  function Piece(p: Parts, r: Run, i: nat): string
    requires |p.word| == 8 && i < 8
    decreases 8 - i, 0
  {
    if i == 6 && p.embeds then p.quad else p.word[i] + Body(p, r, i + 1)
  }

  /** The string inet_ntop6 prints. */
  function Print6(a: seq<Byte>): string
    requires |a| == 16
  { Body(PartsOf(a, BestRun(a)), BestRun(a), 0) }

  /** Two words or more inside the address; an embedded IPv4 address follows a run of
      five or six words at the front. */
  predicate RunFits(p: Parts, r: Run) {
    && (r.base == -1 || (0 <= r.base && 2 <= r.len && r.base + r.len <= 8))
    && (p.embeds ==> r.base == 0 && (r.len == 5 || r.len == 6))
  }

  predicate PartsFit(p: Parts) {
    |p.word| == 8 && |p.quad| <= 15 && forall k :: 0 <= k < 8 ==> |p.word[k]| <= 4
  }

  lemma BestRunFits(a: seq<Byte>)
    requires |a| == 16
    ensures var r := BestRun(a); RunFits(PartsOf(a, r), r) && PartsFit(PartsOf(a, r))
  {
    BestRunLeftmostLongest(a);
    QuadWidth(a[12..]);
    var r := BestRun(a);
    if r.base != -1 { assert ZeroRun(a, r.base, r.base + r.len); }
    forall k | 0 <= k < 8 ensures |HexText(WordAt(a, k))| <= 4 { HexNumeralWidth(WordAt(a, k)); }
  }

  /** Width left from word `i` on. */
  function Room(p: Parts, r: Run, i: nat): int
    requires i <= 8
  {
    if r.base == -1 || i <= r.base then 5 * (8 - i) - (if i == 0 then 1 else 0)
    else 5 * (8 - if InRun(r, i) then r.base + r.len else i) + (if p.embeds then 6 else 1)
  }

  lemma {:induction false} BodyWidth(p: Parts, r: Run, i: nat)
    requires PartsFit(p) && i <= 8 && RunFits(p, r)
    ensures |Body(p, r, i)| <= Room(p, r, i)
    decreases 8 - i
  {
    if i < 8 { BodyWidth(p, r, i + 1); }
  }

  lemma QuadWidth(b: seq<Byte>)
    requires |b| == 4
    ensures |Quad4(b)| <= 15
  {
    DecNumeralWidth(b[0]); DecNumeralWidth(b[1]); DecNumeralWidth(b[2]); DecNumeralWidth(b[3]);
  }

  /** At most 39 characters are printed. */
  lemma Print6Width(a: seq<Byte>)
    requires |a| == 16
    ensures |Print6(a)| <= 39
  {
    BestRunFits(a);
    BodyWidth(PartsOf(a, BestRun(a)), BestRun(a), 0);
  }

  // ---------- the C functions ----------

  /** sprintf and strcpy: the characters and a NUL, at `at`. */
  method Put(buf: array<char>, at: nat, s: string)
    requires at + |s| < buf.Length
    modifies buf
    ensures buf[..at + |s|] == old(buf[..at]) + s && buf[at + |s|] == '\0'
    ensures buf[at + |s| + 1..] == old(buf[at + |s| + 1..])
  {
    forall k | 0 <= k < |s| { buf[at + k] := s[k]; }
    buf[at + |s|] := '\0';
  }

  /** inet_ntop4 into `dst + at` with `size` bytes there. */
  method Ntop4(src: seq<Byte>, dst: array<char>, at: nat, size: nat) returns (ok: bool)
    requires |src| == 4 && at + size <= dst.Length
    modifies dst
    ensures ok <==> |Quad4(src)| < size
    ensures ok ==> dst[..at + |Quad4(src)|] == old(dst[..at]) + Quad4(src) && dst[at + |Quad4(src)|] == '\0'
    ensures !ok ==> dst[..] == old(dst[..])
  {
    var tmp := new char[16];
    QuadWidth(src);
    var text := Quad4(src);
    Put(tmp, 0, text);
    if |text| >= size { return false; }
    Put(dst, at, text);
    return true;
  }

  /** The search loop over the word array. */
  method FindRun(words: array<int>, ghost a: seq<Byte>) returns (best: Run)
    requires |a| == 16 && words.Length == 8 && SameWords(a, words[..])
    ensures best == BestRun(a)
  {
    best := Run(-1, 0);
    var cur := Run(-1, 0);
    for i := 0 to 8
      invariant Search(a, 0, NONE, NONE) == Search(a, i, best, cur.(len := if cur.base == -1 then 0 else cur.len))
    {
      if words[i] == 0 {
        cur := if cur.base == -1 then Run(i, 1) else Run(cur.base, cur.len + 1);
      } else if cur.base != -1 {
        if best.base == -1 || cur.len > best.len { best := cur; }
        cur := Run(-1, cur.len);
      }
    }
    if cur.base != -1 {
      if best.base == -1 || cur.len > best.len { best := cur; }
    }
    if best.base != -1 && best.len < 2 { best := NONE; }
  }

  /** inet_ntop6: formats into the 46-byte `tmp`, never past its 40th byte, then copies
      out unless the caller's buffer is too small. */
  method Ntop6(src: seq<Byte>, dst: array<char>, size: nat) returns (ok: bool)
    requires |src| == 16 && size <= dst.Length
    modifies dst
    ensures ok <==> |Print6(src)| + 1 <= size
    ensures ok ==> dst[..|Print6(src)|] == Print6(src) && dst[|Print6(src)|] == '\0'
    ensures !ok ==> dst[..] == old(dst[..])
  {
    var words := Words(src);
    var best := FindRun(words, src);
    Print6Width(src);
    var tmp := new char[46];
    var tp := Format(src, words, best, tmp);
    ok := CopyOut(tmp, tp, dst, size, Print6(src));
  }

  /** The size check and the copy to the caller. */
  method CopyOut(tmp: array<char>, tp: nat, dst: array<char>, size: nat, ghost text: string) returns (ok: bool)
    requires tp <= tmp.Length && tmp[..tp] == text && size <= dst.Length
    modifies dst
    ensures ok <==> |text| + 1 <= size
    ensures ok ==> dst[..|text|] == text && dst[|text|] == '\0'
    ensures !ok ==> dst[..] == old(dst[..])
  {
    if tp + 1 > size { return false; }
    Put(dst, 0, tmp[..tp]);
    assert dst[..0 + tp] == dst[..tp];
    return true;
  }

  method Words(src: seq<Byte>) returns (words: array<int>)
    requires |src| == 16
    ensures fresh(words) && words.Length == 8 && SameWords(src, words[..])
  {
    words := new int[8](_ => 0);
    for i := 0 to 16
      invariant forall k :: 0 <= k < 8 ==> 2 * k + 1 < i ==> words[k] == WordAt(src, k)
      invariant forall k :: 0 <= k < 8 ==> 2 * k >= i ==> words[k] == 0
      invariant i % 2 == 1 ==> words[i / 2] == src[i - 1] as int * 256
    {
      words[i / 2] := words[i / 2] + if i % 2 == 0 then src[i] as int * 256 else src[i];
    }
  }

  ghost predicate SameWords(src: seq<Byte>, words: seq<int>)
    requires |src| == 16
  { |words| == 8 && forall k :: 0 <= k < 8 ==> words[k] == WordAt(src, k) }

  /** One word outside the run; `stop` after an embedded IPv4 address. */
  method FormatWord(src: seq<Byte>, words: array<int>, best: Run, i: nat, tmp: array<char>, tp: nat)
    returns (next: nat, stop: bool)
    requires |src| == 16 && words.Length == 8 && SameWords(src, words[..])
    requires tmp.Length == 46 && i < 8 && !InRun(best, i) && tp + |Body(PartsOf(src, best), best, i)| <= 39
    modifies tmp
    ensures next <= 39 && (stop ==> Embeds(src, best))
    ensures var p := PartsOf(src, best);
      tmp[..next] + (if stop then "" else Body(p, best, i + 1)) == old(tmp[..tp]) + Body(p, best, i)
  {
    ghost var p := PartsOf(src, best);
    next := tp;
    if i != 0 { next := PutChar(tmp, next, ':'); }
    BodyOut(p, best, i, old(tmp[..tp]));
    stop := i == 6 && best.base == 0 && (best.len == 6 || (best.len == 5 && words[5] == 0xffff));
    if stop {
      next := PutQuad(src[12..], tmp, next);
    } else {
      PieceWord(p, best, i, tmp[..next]);
      next := PutText(tmp, next, HexText(words[i]));
    }
  }

  /** The embedded IPv4 address; it always fits. */
  method PutQuad(quad: seq<Byte>, tmp: array<char>, tp: nat) returns (next: nat)
    requires |quad| == 4 && tp + |Quad4(quad)| < tmp.Length
    modifies tmp
    ensures next == tp + |Quad4(quad)| && tmp[..next] == old(tmp[..tp]) + Quad4(quad)
  {
    var ok := Ntop4(quad, tmp, tp, tmp.Length - tp);
    assert ok;
    next := tp + |Quad4(quad)|;
  }

  /** tp += sprintf(tp, ...). */
  method PutText(tmp: array<char>, tp: nat, text: string) returns (next: nat)
    requires tp + |text| < tmp.Length
    modifies tmp
    ensures next == tp + |text| && tmp[..next] == old(tmp[..tp]) + text
  {
    Put(tmp, tp, text);
    next := tp + |text|;
  }

  lemma BodyIn(p: Parts, r: Run, i: nat, text: string)
    requires |p.word| == 8 && i < 8 && InRun(r, i)
    ensures i == r.base ==> text + Body(p, r, i) == text + ":" + Body(p, r, i + 1)
    ensures i != r.base ==> Body(p, r, i) == Body(p, r, i + 1)
  {
  }

  lemma BodyOut(p: Parts, r: Run, i: nat, text: string)
    requires |p.word| == 8 && i < 8 && !InRun(r, i)
    ensures i != 0 ==> text + Body(p, r, i) == text + ":" + Piece(p, r, i)
    ensures i == 0 ==> Body(p, r, i) == Piece(p, r, i)
  {
  }

  lemma PieceWord(p: Parts, r: Run, i: nat, text: string)
    requires |p.word| == 8 && i < 8 && !(i == 6 && p.embeds)
    ensures text + Piece(p, r, i) == text + p.word[i] + Body(p, r, i + 1)
  {
  }

  /** What is still to write before word i, or nothing after an embedded IPv4 address. */
  ghost predicate Remains(rest: string, src: seq<Byte>, best: Run, i: nat, stop: bool) {
    && |src| == 16 && i <= 8
    && if stop then rest == "" && Embeds(src, best) else rest == Body(PartsOf(src, best), best, i)
  }

  /** One turn of the loop. */
  method FormatTurn(src: seq<Byte>, words: array<int>, best: Run, i: nat, tmp: array<char>, tp: nat, ghost rest: string)
    returns (next: nat, stop: bool, ghost rest': string)
    requires words.Length == 8 && |src| == 16 && SameWords(src, words[..])
    requires tmp.Length == 46 && i < 8 && tp + |rest| <= 39 && Remains(rest, src, best, i, false)
    modifies tmp
    ensures next + |rest'| == tp + |rest| && Remains(rest', src, best, i + 1, stop)
    ensures tmp[..next] + rest' == old(tmp[..tp]) + rest
  {
    next, stop := tp, false;
    if best.base != -1 && i >= best.base && i < best.base + best.len {
      BodyIn(PartsOf(src, best), best, i, tmp[..tp]);
      if i == best.base { next := PutChar(tmp, tp, ':'); }
    } else {
      next, stop := FormatWord(src, words, best, i, tmp, tp);
    }
    rest' := if stop then "" else Body(PartsOf(src, best), best, i + 1);
    assert |tmp[..next] + rest'| == |old(tmp[..tp]) + rest|;
  }

  /** The formatter: the loop, then the colon of a run at the end; the pointer never passes
      character 39. */
  method Format(src: seq<Byte>, words: array<int>, best: Run, tmp: array<char>)
    returns (tp: nat)
    requires |src| == 16 && words.Length == 8 && SameWords(src, words[..])
    requires tmp.Length == 46 && |Body(PartsOf(src, best), best, 0)| <= 39
    modifies tmp
    ensures var all := Body(PartsOf(src, best), best, 0); tp == |all| && tmp[..tp] == all
  {
    var i, stop;
    ghost var rest;
    tp, i, stop, rest := FormatLoop(src, words, best, tmp, Body(PartsOf(src, best), best, 0));
    RestAtEnd(rest, src, best, i, stop);
    if best.base != -1 && best.base + best.len == 8 { tp := PutChar(tmp, tp, ':'); }
    assert tmp[..tp] + "" == tmp[..tp];
  }

  method FormatLoop(src: seq<Byte>, words: array<int>, best: Run, tmp: array<char>, ghost all: string)
    returns (tp: nat, i: nat, stop: bool, ghost rest: string)
    requires |src| == 16 && words.Length == 8 && SameWords(src, words[..])
    requires tmp.Length == 46 && |all| <= 39 && Remains(all, src, best, 0, false)
    modifies tmp
    ensures tp + |rest| == |all| && tmp[..tp] + rest == all
    ensures Remains(rest, src, best, i, stop) && (i == 8 || stop)
  {
    tp, i, stop, rest := 0, 0, false, all;
    assert tmp[..0] + rest == rest;
    while i < 8 && !stop
      invariant i <= 8 && tp + |rest| == |all| && tmp[..tp] + rest == all
      invariant Remains(rest, src, best, i, stop)
      decreases 8 - i
    {
      tp, stop, rest := FormatTurn(src, words, best, i, tmp, tp, rest);
      i := i + 1;
    }
  }

  lemma RestAtEnd(rest: string, src: seq<Byte>, best: Run, i: nat, stop: bool)
    requires Remains(rest, src, best, i, stop) && (i == 8 || stop)
    ensures rest == if best.base != -1 && best.base + best.len == 8 then ":" else ""
  {
  }

  method PutChar(tmp: array<char>, tp: nat, c: char) returns (next: nat)
    requires tp < tmp.Length
    modifies tmp
    ensures next == tp + 1 && tmp[..next] == old(tmp[..tp]) + [c]
  {
    tmp[tp] := c;
    next := tp + 1;
  }
}
