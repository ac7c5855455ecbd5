/**
  Code points, their UTF-8 and UTF-16 forms, and the table of decompositions.
*/
module Utf {
  type Byte = bv8
  type Unit = bv16
  type Ucs4 = bv32

  const SLASH: Ucs4 := 0x2F
  const COLON: Ucs4 := 0x3A
  const REPLACEMENT: Unit := 0xFFFD
  const LAST: Ucs4 := 0x7FFFFFFF

  // Stores into narrower variables truncate
  function Low(x: Ucs4): Byte {
    (x & 0xFF) as bv8
  }

  function Narrow(x: Ucs4): Unit {
    (x & 0xFFFF) as bv16
  }

  function Wide(b: Byte): Ucs4 {
    b as bv32
  }

  function WideUnit(u: Unit): Ucs4 {
    u as bv32
  }

  // ------------------------------------------------------------------
  // UTF-8

  // The first byte of an n-byte form, and the others
  function Lead(x: Ucs4, n: nat): Byte {
    match n
    case 2 => Low(x | 0xC0)
    case 3 => Low(x | 0xE0)
    case 4 => Low(x | 0xF0)
    case 5 => Low(x | 0xF8)
    case 6 => Low(x | 0xFC)
    case _ => Low(x)
  }

  function Cont(x: Ucs4): Byte {
    Low((x | 0x80) & 0xBF)
  }

  // The number without its last six bits
  function Six(x: Ucs4): Ucs4 {
    x >> 6
  }

  function Form(x: Ucs4, n: nat): (bytes: seq<Byte>)
    requires 1 <= n <= 6
    ensures |bytes| == n
  {
    match n
    case 1 => [Lead(x, 1)]
    case 2 => [Lead(Six(x), 2), Cont(x)]
    case 3 => [Lead(Six(Six(x)), 3), Cont(Six(x)), Cont(x)]
    case 4 => [Lead(Six(Six(Six(x))), 4), Cont(Six(Six(x))), Cont(Six(x)), Cont(x)]
    case 5 => [Lead(Six(Six(Six(Six(x)))), 5), Cont(Six(Six(Six(x)))), Cont(Six(Six(x))), Cont(Six(x)), Cont(x)]
    case 6 => [Lead(Six(Six(Six(Six(Six(x))))), 6), Cont(Six(Six(Six(Six(x))))), Cont(Six(Six(Six(x)))), Cont(Six(Six(x))), Cont(Six(x)), Cont(x)]
  }

  function Width(cp: Ucs4): (n: nat)
    ensures 1 <= n <= 6
  {
    if cp < 0x80 then 1 else if cp < 0x800 then 2 else if cp < 0x10000 then 3
    else if cp < 0x200000 then 4 else if cp < 0x4000000 then 5 else 6
  }

  /** UTF-8 of RFC 3629, section 3, and beyond U+10FFFF the longer forms of RFC 2279. */
  function Utf8(cp: Ucs4): (bytes: seq<Byte>)
    ensures |bytes| == Width(cp)
  {
    Form(cp, Width(cp))
  }

  function Utf8s(cps: seq<Ucs4>): seq<Byte> {
    if cps == [] then [] else Utf8(cps[0]) + Utf8s(cps[1..])
  }

  lemma Associate<T>(a: seq<T>, b: seq<T>, c: seq<T>)
    ensures a + b + c == a + (b + c)
  {
  }

  lemma {:induction false} Utf8sAppend(a: seq<Ucs4>, b: seq<Ucs4>)
    ensures Utf8s(a + b) == Utf8s(a) + Utf8s(b)
  {
    hide Utf8;
    if a == [] {
      assert a + b == b;
    } else {
      Utf8sAppend(a[1..], b);
      Associate(Utf8(a[0]), Utf8s(a[1..]), Utf8s(b));
      assert (a + b)[1..] == a[1..] + b;
    }
  }

  lemma Utf8sOne(cp: Ucs4)
    ensures Utf8s([cp]) == Utf8(cp)
  {
    hide Utf8;
    assert [cp][1..] == [];
  }

  // How many bytes follow a first byte: bytesFromUTF8
  function Extra(b: Byte): (n: nat)
    ensures n <= 5
  {
    if b < 0xC0 then 0 else if b < 0xE0 then 1 else if b < 0xF0 then 2 else if b < 0xF8 then 3 else if b < 0xFC then 4 else 5
  }

  // offsetsFromUTF8
  function Offset(n: nat): Ucs4 {
    match n
    case 0 => 0
    case 1 => 0x00003080
    case 2 => 0x000E2080
    case 3 => 0x03C82080
    case 4 => 0xFA082080
    case _ => 0x82082080
  }

  // The number moved up by six bits
  function Up(x: Ucs4): Ucs4 {
    x << 6
  }

  // 32-bit addition
  function Plus(sum: Ucs4, b: Byte): Ucs4 {
    sum + Wide(b)
  }

  // One more byte
  function Push(sum: Ucs4, b: Byte): Ucs4 {
    Plus(Up(sum), b)
  }

  // Bytes added up
  function Gather(bytes: seq<Byte>): Ucs4
    decreases |bytes|
  {
    if bytes == [] then 0 else Push(Gather(bytes[..|bytes|-1]), bytes[|bytes|-1])
  }

  lemma GatherSnoc(bytes: seq<Byte>, b: Byte)
    ensures Gather(bytes + [b]) == Push(Gather(bytes), b)
  {
    hide Push;
    assert (bytes + [b])[..|bytes|] == bytes;
  }

  // The sum without the bits that mark the bytes
  function Shifted(sum: Ucs4, n: nat): Ucs4 {
    sum - Offset(n)
  }

  predicate IsAscii(b: Byte) {
    b < 128
  }

  lemma TwoBytes(x: Ucs4)
    requires x < 0x800
    ensures Shifted(Push(Push(0, Lead(Six(x), 2)), Cont(x)), 1) == x
    ensures Extra(Lead(Six(x), 2)) == 1 && !IsAscii(Lead(Six(x), 2))
  {
  }

  lemma ThreeBytes(x: Ucs4)
    requires x < 0x10000
    ensures Shifted(Push(Push(Push(0, Lead(Six(Six(x)), 3)), Cont(Six(x))), Cont(x)), 2) == x
    ensures Extra(Lead(Six(Six(x)), 3)) == 2 && !IsAscii(Lead(Six(Six(x)), 3))
  {
  }

  lemma FourBytes(x: Ucs4)
    requires x < 0x200000
    ensures Shifted(Push(Push(Push(Push(0, Lead(Six(Six(Six(x))), 4)), Cont(Six(Six(x)))), Cont(Six(x))), Cont(x)), 3) == x
    ensures Extra(Lead(Six(Six(Six(x))), 4)) == 3 && !IsAscii(Lead(Six(Six(Six(x))), 4))
  {
  }

  lemma FiveBytes(x: Ucs4)
    requires x < 0x4000000
    ensures Shifted(Push(Push(Push(Push(Push(0, Lead(Six(Six(Six(Six(x)))), 5)), Cont(Six(Six(Six(x))))), Cont(Six(Six(x)))), Cont(Six(x))), Cont(x)), 4) == x
    ensures Extra(Lead(Six(Six(Six(Six(x)))), 5)) == 4 && !IsAscii(Lead(Six(Six(Six(Six(x)))), 5))
  {
  }

  lemma SixBytes(x: Ucs4)
    requires x <= LAST
    ensures Shifted(Push(Push(Push(Push(Push(Push(0, Lead(Six(Six(Six(Six(Six(x))))), 6)), Cont(Six(Six(Six(Six(x)))))), Cont(Six(Six(Six(x))))), Cont(Six(Six(x)))), Cont(Six(x))), Cont(x)), 5) == x
    ensures Extra(Lead(Six(Six(Six(Six(Six(x))))), 6)) == 5 && !IsAscii(Lead(Six(Six(Six(Six(Six(x))))), 6))
  {
  }

  lemma GatherTwo(a: Byte, b: Byte)
    ensures Gather([a, b]) == Push(Push(0, a), b)
  {
    hide Push;
    assert [] + [a] == [a] && [a] + [b] == [a, b];
    GatherSnoc([], a);
    GatherSnoc([a], b);
  }

  lemma GatherThree(a: Byte, b: Byte, c: Byte)
    ensures Gather([a, b, c]) == Push(Push(Push(0, a), b), c)
  {
    hide Push, Gather;
    assert [a, b] + [c] == [a, b, c];
    GatherTwo(a, b);
    GatherSnoc([a, b], c);
  }

  lemma GatherFour(a: Byte, b: Byte, c: Byte, d: Byte)
    ensures Gather([a, b, c, d]) == Push(Push(Push(Push(0, a), b), c), d)
  {
    hide Push, Gather;
    assert [a, b, c] + [d] == [a, b, c, d];
    GatherThree(a, b, c);
    GatherSnoc([a, b, c], d);
  }

  lemma GatherFive(a: Byte, b: Byte, c: Byte, d: Byte, e: Byte)
    ensures Gather([a, b, c, d, e]) == Push(Push(Push(Push(Push(0, a), b), c), d), e)
  {
    hide Push, Gather;
    assert [a, b, c, d] + [e] == [a, b, c, d, e];
    GatherFour(a, b, c, d);
    GatherSnoc([a, b, c, d], e);
  }

  lemma GatherSix(a: Byte, b: Byte, c: Byte, d: Byte, e: Byte, f: Byte)
    ensures Gather([a, b, c, d, e, f]) == Push(Push(Push(Push(Push(Push(0, a), b), c), d), e), f)
  {
    hide Push, Gather;
    assert [a, b, c, d, e] + [f] == [a, b, c, d, e, f];
    GatherFive(a, b, c, d, e);
    GatherSnoc([a, b, c, d, e], f);
  }

  predicate Inverts(b: seq<Byte>, cp: Ucs4) {
    b != [] && !IsAscii(b[0]) && Extra(b[0]) + 1 == |b| && Shifted(Gather(b), |b| - 1) == cp
  }

  lemma FormTwo(cp: Ucs4)
    requires cp < 0x800
    ensures Inverts(Form(cp, 2), cp)
  {
    hide Gather, Six, Push, Lead, Cont, Shifted, Extra, IsAscii;
    TwoBytes(cp);
    GatherTwo(Lead(Six(cp), 2), Cont(cp));
  }

  lemma FormThree(cp: Ucs4)
    requires cp < 0x10000
    ensures Inverts(Form(cp, 3), cp)
  {
    hide Gather, Six, Push, Lead, Cont, Shifted, Extra, IsAscii;
    ThreeBytes(cp);
    GatherThree(Lead(Six(Six(cp)), 3), Cont(Six(cp)), Cont(cp));
  }

  lemma FormFour(cp: Ucs4)
    requires cp < 0x200000
    ensures Inverts(Form(cp, 4), cp)
  {
    hide Gather, Six, Push, Lead, Cont, Shifted, Extra, IsAscii;
    FourBytes(cp);
    GatherFour(Lead(Six(Six(Six(cp))), 4), Cont(Six(Six(cp))), Cont(Six(cp)), Cont(cp));
  }

  lemma FormFive(cp: Ucs4)
    requires cp < 0x4000000
    ensures Inverts(Form(cp, 5), cp)
  {
    hide Gather, Six, Push, Lead, Cont, Shifted, Extra, IsAscii;
    FiveBytes(cp);
    GatherFive(Lead(Six(Six(Six(Six(cp)))), 5), Cont(Six(Six(Six(cp)))), Cont(Six(Six(cp))), Cont(Six(cp)), Cont(cp));
  }

  lemma FormSix(cp: Ucs4)
    requires cp <= LAST
    ensures Inverts(Form(cp, 6), cp)
  {
    hide Gather, Six, Push, Lead, Cont, Shifted, Extra, IsAscii;
    SixBytes(cp);
    GatherSix(Lead(Six(Six(Six(Six(Six(cp))))), 6), Cont(Six(Six(Six(Six(cp))))), Cont(Six(Six(Six(cp)))), Cont(Six(Six(cp))), Cont(Six(cp)), Cont(cp));
  }

  /** Adding up the bytes of a form and subtracting the offset for its length inverts the shifts and masks that made it. */
  lemma GatherInvertsForm(cp: Ucs4)
    requires 0x80 <= cp <= LAST
    ensures Inverts(Utf8(cp), cp)
  {
    hide Inverts, Form;
    match Width(cp) {
      case 2 => FormTwo(cp);
      case 3 => FormThree(cp);
      case 4 => FormFour(cp);
      case 5 => FormFive(cp);
      case _ => FormSix(cp);
    }
  }

  // ------------------------------------------------------------------
  // Surrogate pairs

  predicate IsHigh(u: Unit) {
    0xD800 <= u <= 0xDBFF
  }

  predicate IsLow(u: Unit) {
    0xDC00 <= u <= 0xDFFF
  }

  function Combine(high: Ucs4, low: Ucs4): Ucs4 {
    ((high - 0xD800) << 10) + (low - 0xDC00) + 0x10000
  }

  function HighHalf(cp: Ucs4): Ucs4 {
    ((cp - 0x10000) >> 10) + 0xD800
  }

  function LowHalf(cp: Ucs4): Ucs4 {
    ((cp - 0x10000) & 0x3FF) + 0xDC00
  }

  function Joined(h: Unit, l: Unit): Ucs4 {
    Combine(WideUnit(h), WideUnit(l))
  }

  function HighOf(cp: Ucs4): Unit {
    Narrow(HighHalf(cp))
  }

  function LowOf(cp: Ucs4): Unit {
    Narrow(LowHalf(cp))
  }

  lemma SplitJoined(h: Unit, l: Unit)
    requires IsHigh(h) && IsLow(l)
    ensures 0x10000 <= Joined(h, l) <= 0x10FFFF
    ensures HighOf(Joined(h, l)) == h && LowOf(Joined(h, l)) == l
  {
  }

  /** The pair counts on from U+10000, the high surrogate in steps of 0x400. */
  lemma JoinedInNumbers(h: Unit, l: Unit)
    requires IsHigh(h) && IsLow(l)
    ensures Joined(h, l) == 0x10000 + (WideUnit(h) - 0xD800) * 0x400 + (WideUnit(l) - 0xDC00)
  {
  }

  lemma Narrowed(x: Ucs4)
    requires x <= 0xFFFF
    ensures WideUnit(Narrow(x)) == x
    ensures IsHigh(Narrow(x)) <==> 0xD800 <= x <= 0xDBFF
    ensures IsLow(Narrow(x)) <==> 0xDC00 <= x <= 0xDFFF
  {
  }

  // Twenty bits, cut in two and put together again
  lemma HalvesCombine(cp: Ucs4)
    requires 0x10000 <= cp <= 0x10FFFF
    ensures 0xD800 <= ((cp - 0x10000) >> 10) + 0xD800 <= 0xDBFF && 0xDC00 <= ((cp - 0x10000) & 0x3FF) + 0xDC00 <= 0xDFFF
    ensures Combine(((cp - 0x10000) >> 10) + 0xD800, ((cp - 0x10000) & 0x3FF) + 0xDC00) == cp
  {
  }

  lemma Halves(cp: Ucs4)
    requires 0x10000 <= cp <= 0x10FFFF
    ensures 0xD800 <= HighHalf(cp) <= 0xDBFF && 0xDC00 <= LowHalf(cp) <= 0xDFFF
    ensures Combine(HighHalf(cp), LowHalf(cp)) == cp
  {
    hide Combine;
    HalvesCombine(cp);
  }

  lemma SplitIsSurrogates(cp: Ucs4)
    requires 0x10000 <= cp <= 0x10FFFF
    ensures IsHigh(HighOf(cp)) && IsLow(LowOf(cp)) && Joined(HighOf(cp), LowOf(cp)) == cp
  {
    hide Narrow, WideUnit, IsHigh, IsLow, Combine, HighHalf, LowHalf;
    Halves(cp);
    Narrowed(HighHalf(cp));
    Narrowed(LowHalf(cp));
  }

  lemma UnitWidens(u: Unit)
    ensures WideUnit(u) <= 0xFFFF && Narrow(WideUnit(u)) == u
  {
  }

  predicate Pairs(units: seq<Unit>) {
    |units| >= 2 && IsHigh(units[0]) && IsLow(units[1])
  }

  /** The code points of UTF-16: a high and a low surrogate side by side are one, any other unit stands for itself. */
  function Points(units: seq<Unit>): (ps: seq<Ucs4>)
    ensures |ps| <= |units|
  {
    if units == [] then []
    else if Pairs(units) then [Joined(units[0], units[1])] + Points(units[2..])
    else [WideUnit(units[0])] + Points(units[1..])
  }

  // ------------------------------------------------------------------
  // Decomposition

  // The letter left of U+00C0 to U+00FF without its mark; ligatures, other letters and signs stand for themselves
  function Primary(u: Unit): Unit {
    match u
    case 0xC0 | 0xC1 | 0xC2 | 0xC3 | 0xC4 | 0xC5 => 0x41
    case 0xC7 => 0x43
    case 0xC8 | 0xC9 | 0xCA | 0xCB => 0x45
    case 0xCC | 0xCD | 0xCE | 0xCF => 0x49
    case 0xD1 => 0x4E
    case 0xD2 | 0xD3 | 0xD4 | 0xD5 | 0xD6 => 0x4F
    case 0xD9 | 0xDA | 0xDB | 0xDC => 0x55
    case 0xDD => 0x59
    case 0xE0 | 0xE1 | 0xE2 | 0xE3 | 0xE4 | 0xE5 => 0x61
    case 0xE7 => 0x63
    case 0xE8 | 0xE9 | 0xEA | 0xEB => 0x65
    case 0xEC | 0xED | 0xEE | 0xEF => 0x69
    case 0xF1 => 0x6E
    case 0xF2 | 0xF3 | 0xF4 | 0xF5 | 0xF6 => 0x6F
    case 0xF9 | 0xFA | 0xFB | 0xFC => 0x75
    case 0xFD | 0xFF => 0x79
    case _ => u
  }

  // The mark taken off, from U+0300 on; 0xFF for those that have none
  function Combining(u: Unit): Unit {
    match u
    case 0xC0 | 0xC8 | 0xCC | 0xD2 | 0xD9 | 0xE0 | 0xE8 | 0xEC | 0xF2 | 0xF9 => 0x00
    case 0xC1 | 0xC9 | 0xCD | 0xD3 | 0xDA | 0xDD | 0xE1 | 0xE9 | 0xED | 0xF3 | 0xFA | 0xFD => 0x01
    case 0xC2 | 0xCA | 0xCE | 0xD4 | 0xDB | 0xE2 | 0xEA | 0xEE | 0xF4 | 0xFB => 0x02
    case 0xC3 | 0xD1 | 0xD5 | 0xE3 | 0xF1 | 0xF5 => 0x03
    case 0xC4 | 0xCB | 0xCF | 0xD6 | 0xDC | 0xE4 | 0xEB | 0xEF | 0xF6 | 0xFC | 0xFF => 0x08
    case 0xC5 | 0xE5 => 0x0A
    case 0xC7 | 0xE7 => 0x27
    case _ => 0xFF
  }

  // One bit for each of U+3000 to U+30FF
  const BITMAP: seq<bv32> := [
    0x00000000, 0x00000000, 0x000AAAAA, 0xA540DB6C,
    0x00000802, 0x000AAAAA, 0xA540DB6C, 0x000009E2
  ]

  function WordIndex(u: Unit): (i: nat)
    requires 0x3000 <= u < 0x3100
    ensures i < 8
  {
    assert (u - 0x3000) >> 5 < 8;
    ((u - 0x3000) >> 5) as int
  }

  predicate KanaBit(u: Unit)
    requires 0x3000 <= u < 0x3100
  {
    BITMAP[WordIndex(u)] & ((1 as bv32) << (31 - ((u - 0x3000) & 31))) != 0
  }

  // The kana with a voicing mark of their own kind; for all others the unmarked one is the one before
  function Kana(u: Unit): (Unit, Unit) {
    match u
    case 0x3071 => (0x306F, 0x309A)
    case 0x3074 => (0x3072, 0x309A)
    case 0x3077 => (0x3075, 0x309A)
    case 0x307A => (0x3078, 0x309A)
    case 0x307D => (0x307B, 0x309A)
    case 0x3094 => (0x3046, 0x3099)
    case 0x30D1 => (0x30CF, 0x309A)
    case 0x30D4 => (0x30D2, 0x309A)
    case 0x30D7 => (0x30D5, 0x309A)
    case 0x30DA => (0x30D8, 0x309A)
    case 0x30DD => (0x30DB, 0x309A)
    case 0x30F4 => (0x30A6, 0x3099)
    case 0x30F7 => (0x30EF, 0x3099)
    case 0x30F8 => (0x30F0, 0x3099)
    case 0x30F9 => (0x30F1, 0x3099)
    case 0x30FA => (0x30F2, 0x3099)
    case _ => (u - 1, 0x3099)
  }

  const SMALL_Z: Unit := 0x7A

  function Latin(u: Unit): (Unit, Unit)
    requires 0xC0 <= u <= 0xFF
  {
    var d := Primary(u);
    (d, if d <= SMALL_Z then 0x0300 + Combining(u) else 0)
  }

  /** The unit to store, and the combining one after it or 0. */
  function Decomposer(u: Unit): (Unit, Unit) {
    if 0xC0 <= u <= 0xFF then Latin(u)
    else if 0x3000 < u < 0x3100 && KanaBit(u) then Kana(u)
    else (u, 0)
  }

  predicate Decomposable(u: Unit) {
    Decomposer(u) != (u, 0)
  }

  function Pieces(u: Unit): (units: seq<Unit>)
    ensures 1 <= |units| <= 2
  {
    var (d, c) := Decomposer(u);
    if c != 0 then [d, c] else [d]
  }

  // A Latin letter is either kept, or becomes an ASCII letter and a combining mark
  predicate LatinParts(u: Unit)
    requires 0xC0 <= u <= 0xFF
  {
    var (d, c) := Latin(u);
    (d == u && c == 0) || (0x41 <= d <= 0x79 && 0x300 <= c <= 0x327)
  }

  lemma PrimaryIsLetter(u: Unit)
    ensures Primary(u) == u || 0x41 <= Primary(u) <= 0x79
  {
  }

  lemma MarkInRange(u: Unit)
    requires 0xC0 <= u <= 0xFF && Primary(u) <= SMALL_Z
    ensures 0x300 <= 0x300 + Combining(u) <= 0x327
  {
  }

  lemma LatinLetter(u: Unit)
    requires 0xC0 <= u <= 0xFF
    ensures LatinParts(u)
  {
    hide Primary, Combining;
    PrimaryIsLetter(u);
    if Primary(u) <= SMALL_Z {
      MarkInRange(u);
    }
  }

  // The word of the bitmap that speaks for a kana
  function Word(u: Unit): bv32 {
    if u < 0x3040 then 0 else if u < 0x3060 then 0x000AAAAA else if u < 0x3080 then 0xA540DB6C else if u < 0x30A0 then 0x00000802
    else if u < 0x30C0 then 0x000AAAAA else if u < 0x30E0 then 0xA540DB6C else 0x000009E2
  }

  lemma WordIs(u: Unit)
    requires 0x3000 <= u < 0x3100
    ensures BITMAP[WordIndex(u)] == Word(u)
  {
    var r := (u - 0x3000) >> 5;
    assert r < 8;
    match r {
      case 0 =>
      case 1 =>
      case 2 =>
      case 3 =>
      case 4 =>
      case 5 =>
      case 6 =>
      case 7 =>
    }
  }

  predicate WordBit(u: Unit) {
    Word(u) & ((1 as bv32) << (31 - ((u - 0x3000) & 31))) != 0
  }

  lemma KanaBitIs(u: Unit)
    requires 0x3000 <= u < 0x3100
    ensures KanaBit(u) == WordBit(u)
  {
    WordIs(u);
  }

  // Neither part of a decomposed kana has its bit set
  lemma KanaParts(u: Unit)
    requires 0x3000 < u < 0x3100 && WordBit(u)
    ensures var (d, c) := Kana(u);
            && 0x3000 < d < 0x3100 && !WordBit(d) && d != u
            && (c == 0x3099 || c == 0x309A) && !WordBit(c)
  {
  }

  lemma Undecomposed(u: Unit)
    requires !(0xC0 <= u <= 0xFF) && (0x3000 < u < 0x3100 ==> !WordBit(u))
    ensures !Decomposable(u)
  {
    if 0x3000 < u < 0x3100 {
      KanaBitIs(u);
    }
  }

  /** Decomposition is done in one step: no part can be decomposed again, and no part is NUL or a colon unless the unit is. */
  lemma PartsAreWhole(u: Unit)
    ensures var (d, c) := Decomposer(u);
            && !Decomposable(d) && (c != 0 ==> !Decomposable(c) && c >= 0x300)
            && (Decomposable(u) ==> d != u && c != 0)
            && (d == 0 ==> u == 0) && (d == 0x3A ==> u == 0x3A)
  {
    hide Latin, Kana, WordBit, KanaBit;
    var (d, c) := Decomposer(u);
    if 0xC0 <= u <= 0xFF {
      LatinLetter(u);
      assert LatinParts(u);
      if d != u {
        Undecomposed(d);
        Undecomposed(c);
      }
    } else if 0x3000 < u < 0x3100 {
      KanaBitIs(u);
      if KanaBit(u) {
        KanaParts(u);
        Undecomposed(d);
        Undecomposed(c);
      }
    }
  }
}
