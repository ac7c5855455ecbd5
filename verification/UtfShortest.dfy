/**
  UTF-8 as RFC 3629, section 3, defines it (and RFC 2279, section 2, for five and
  six bytes): by the bits of a byte sequence, and the rule of the shortest form.
*/
module UtfShortest {
  import opened Utf

  // The bits of a first byte that count, and those of a byte behind it
  function Head(b: Byte, mask: Ucs4): Ucs4 {
    Wide(b) & mask
  }

  function Tail(b: Byte): Ucs4 {
    Wide(b) & 0x3F
  }

  function Meaning2(a: Byte, b: Byte): Ucs4 {
    (Head(a, 0x1F) << 6) | Tail(b)
  }

  function Meaning3(a: Byte, b: Byte, c: Byte): Ucs4 {
    (Head(a, 0x0F) << 12) | (Tail(b) << 6) | Tail(c)
  }

  function Meaning4(a: Byte, b: Byte, c: Byte, d: Byte): Ucs4 {
    (Head(a, 0x07) << 18) | (Tail(b) << 12) | (Tail(c) << 6) | Tail(d)
  }

  function Meaning5(a: Byte, b: Byte, c: Byte, d: Byte, e: Byte): Ucs4 {
    (Head(a, 0x03) << 24) | (Tail(b) << 18) | (Tail(c) << 12) | (Tail(d) << 6) | Tail(e)
  }

  function Meaning6(a: Byte, b: Byte, c: Byte, d: Byte, e: Byte, f: Byte): Ucs4 {
    (Head(a, 0x01) << 30) | (Tail(b) << 24) | (Tail(c) << 18) | (Tail(d) << 12) | (Tail(e) << 6) | Tail(f)
  }

  predicate Follows(b: Byte) {
    0x80 <= b <= 0xBF
  }

  /** A first byte that announces the length, and bytes 80 to BF behind it. */
  predicate Shaped(b: seq<Byte>) {
    1 <= |b| <= 6 && (forall i | 1 <= i < |b| :: Follows(b[i])) &&
    match |b|
    case 1 => b[0] <= 0x7F
    case 2 => 0xC0 <= b[0] <= 0xDF
    case 3 => 0xE0 <= b[0] <= 0xEF
    case 4 => 0xF0 <= b[0] <= 0xF7
    case 5 => 0xF8 <= b[0] <= 0xFB
    case _ => 0xFC <= b[0] <= 0xFD
  }

  /** The number that the bits x of such a sequence spell. */
  function Meaning(b: seq<Byte>): Ucs4
    requires 1 <= |b| <= 6
  {
    match |b|
    case 1 => Wide(b[0])
    case 2 => Meaning2(b[0], b[1])
    case 3 => Meaning3(b[0], b[1], b[2])
    case 4 => Meaning4(b[0], b[1], b[2], b[3])
    case 5 => Meaning5(b[0], b[1], b[2], b[3], b[4])
    case _ => Meaning6(b[0], b[1], b[2], b[3], b[4], b[5])
  }

  // ------------------------------------------------------------------
  // Sequences of each length: the most they can mean, and that they are the form of it

  lemma Bytes1(a: Byte)
    requires a <= 0x7F
    ensures Wide(a) <= 0x7F && Lead(Wide(a), 1) == a
  {
  }

  lemma Most2(a: Byte, b: Byte)
    requires 0xC0 <= a <= 0xDF && Follows(b)
    ensures Meaning2(a, b) <= 0x7FF
  {
  }

  lemma Bytes2(a: Byte, b: Byte)
    requires 0xC0 <= a <= 0xDF && Follows(b)
    ensures Lead(Six(Meaning2(a, b)), 2) == a
    ensures Cont(Meaning2(a, b)) == b
  {
  }

  lemma Most3(a: Byte, b: Byte, c: Byte)
    requires 0xE0 <= a <= 0xEF && Follows(b) && Follows(c)
    ensures Meaning3(a, b, c) <= 0xFFFF
  {
  }

  lemma Bytes3(a: Byte, b: Byte, c: Byte)
    requires 0xE0 <= a <= 0xEF && Follows(b) && Follows(c)
    ensures Lead(Six(Six(Meaning3(a, b, c))), 3) == a
    ensures Cont(Six(Meaning3(a, b, c))) == b
    ensures Cont(Meaning3(a, b, c)) == c
  {
  }

  lemma Most4(a: Byte, b: Byte, c: Byte, d: Byte)
    requires 0xF0 <= a <= 0xF7 && Follows(b) && Follows(c) && Follows(d)
    ensures Meaning4(a, b, c, d) <= 0x1FFFFF
  {
  }

  lemma Bytes4(a: Byte, b: Byte, c: Byte, d: Byte)
    requires 0xF0 <= a <= 0xF7 && Follows(b) && Follows(c) && Follows(d)
    ensures Lead(Six(Six(Six(Meaning4(a, b, c, d)))), 4) == a
    ensures Cont(Six(Six(Meaning4(a, b, c, d)))) == b
    ensures Cont(Six(Meaning4(a, b, c, d))) == c
    ensures Cont(Meaning4(a, b, c, d)) == d
  {
  }

  lemma Most5(a: Byte, b: Byte, c: Byte, d: Byte, e: Byte)
    requires 0xF8 <= a <= 0xFB && Follows(b) && Follows(c) && Follows(d) && Follows(e)
    ensures Meaning5(a, b, c, d, e) <= 0x3FFFFFF
  {
  }

  lemma Bytes5(a: Byte, b: Byte, c: Byte, d: Byte, e: Byte)
    requires 0xF8 <= a <= 0xFB && Follows(b) && Follows(c) && Follows(d) && Follows(e)
    ensures Lead(Six(Six(Six(Six(Meaning5(a, b, c, d, e))))), 5) == a
    ensures Cont(Six(Six(Six(Meaning5(a, b, c, d, e))))) == b
    ensures Cont(Six(Six(Meaning5(a, b, c, d, e)))) == c
    ensures Cont(Six(Meaning5(a, b, c, d, e))) == d
    ensures Cont(Meaning5(a, b, c, d, e)) == e
  {
  }

  lemma Most6(a: Byte, b: Byte, c: Byte, d: Byte, e: Byte, f: Byte)
    requires 0xFC <= a <= 0xFD && Follows(b) && Follows(c) && Follows(d) && Follows(e) && Follows(f)
    ensures Meaning6(a, b, c, d, e, f) <= LAST
  {
  }

  lemma Bytes6(a: Byte, b: Byte, c: Byte, d: Byte, e: Byte, f: Byte)
    requires 0xFC <= a <= 0xFD && Follows(b) && Follows(c) && Follows(d) && Follows(e) && Follows(f)
    ensures Lead(Six(Six(Six(Six(Six(Meaning6(a, b, c, d, e, f)))))), 6) == a
    ensures Cont(Six(Six(Six(Six(Meaning6(a, b, c, d, e, f)))))) == b
    ensures Cont(Six(Six(Six(Meaning6(a, b, c, d, e, f))))) == c
    ensures Cont(Six(Six(Meaning6(a, b, c, d, e, f)))) == d
    ensures Cont(Six(Meaning6(a, b, c, d, e, f))) == e
    ensures Cont(Meaning6(a, b, c, d, e, f)) == f
  {
  }

  // ------------------------------------------------------------------
  // Forms of each length: their bytes, and that they mean the number

  lemma Form1(x: Ucs4)
    requires x < 0x80
    ensures Lead(x, 1) <= 0x7F && Wide(Lead(x, 1)) == x
  {
  }

  lemma ContFollows(x: Ucs4)
    ensures Follows(Cont(x))
  {
  }

  lemma Form2(x: Ucs4)
    requires x < 0x800
    ensures 0xC0 <= Lead(Six(x), 2) <= 0xDF
    ensures Meaning2(Lead(Six(x), 2), Cont(x)) == x
  {
  }

  lemma Form3(x: Ucs4)
    requires x < 0x10000
    ensures 0xE0 <= Lead(Six(Six(x)), 3) <= 0xEF
    ensures Meaning3(Lead(Six(Six(x)), 3), Cont(Six(x)), Cont(x)) == x
  {
  }

  lemma Form4(x: Ucs4)
    requires x < 0x200000
    ensures 0xF0 <= Lead(Six(Six(Six(x))), 4) <= 0xF7
    ensures Meaning4(Lead(Six(Six(Six(x))), 4), Cont(Six(Six(x))), Cont(Six(x)), Cont(x)) == x
  {
  }

  lemma Form5(x: Ucs4)
    requires x < 0x4000000
    ensures 0xF8 <= Lead(Six(Six(Six(Six(x)))), 5) <= 0xFB
    ensures Meaning5(Lead(Six(Six(Six(Six(x)))), 5), Cont(Six(Six(Six(x)))), Cont(Six(Six(x))), Cont(Six(x)), Cont(x)) == x
  {
  }

  lemma Form6(x: Ucs4)
    requires x <= LAST
    ensures 0xFC <= Lead(Six(Six(Six(Six(Six(x))))), 6) <= 0xFD
    ensures Meaning6(Lead(Six(Six(Six(Six(Six(x))))), 6), Cont(Six(Six(Six(Six(x))))), Cont(Six(Six(Six(x)))), Cont(Six(Six(x))), Cont(Six(x)), Cont(x)) == x
  {
  }

  // ------------------------------------------------------------------
  // The shortest form

  /** What a sequence means fits its length, and the sequence is the form of that length. */
  lemma ShapedIsForm(b: seq<Byte>)
    requires Shaped(b)
    ensures Form(Meaning(b), |b|) == b && Meaning(b) <= LAST && Width(Meaning(b)) <= |b|
  {
    hide Lead, Cont, Six, Wide, Follows, Meaning2, Meaning3, Meaning4, Meaning5, Meaning6;
    match |b| {
      case 1 =>
        Bytes1(b[0]);
      case 2 =>
        Most2(b[0], b[1]);
        Bytes2(b[0], b[1]);
      case 3 =>
        Most3(b[0], b[1], b[2]);
        Bytes3(b[0], b[1], b[2]);
      case 4 =>
        Most4(b[0], b[1], b[2], b[3]);
        Bytes4(b[0], b[1], b[2], b[3]);
      case 5 =>
        Most5(b[0], b[1], b[2], b[3], b[4]);
        Bytes5(b[0], b[1], b[2], b[3], b[4]);
      case _ =>
        Most6(b[0], b[1], b[2], b[3], b[4], b[5]);
        Bytes6(b[0], b[1], b[2], b[3], b[4], b[5]);
    }
  }

  lemma Utf8IsShaped(cp: Ucs4)
    requires cp <= LAST
    ensures Shaped(Utf8(cp)) && Meaning(Utf8(cp)) == cp
  {
    hide Lead, Cont, Six, Wide, Follows, Meaning2, Meaning3, Meaning4, Meaning5, Meaning6;
    forall x: Ucs4
      ensures Follows(Cont(x))
    {
      ContFollows(x);
    }
    match Width(cp) {
      case 1 => Form1(cp);
      case 2 => Form2(cp);
      case 3 => Form3(cp);
      case 4 => Form4(cp);
      case 5 => Form5(cp);
      case _ => Form6(cp);
    }
  }

  /**
    UTF-8 of a code point is the one shortest sequence that means it: every other
    sequence of a first byte and the bytes 80 to BF it announces that means the
    same is longer.
  */
  lemma ShortestForm(cp: Ucs4)
    requires cp <= LAST
    ensures Shaped(Utf8(cp)) && Meaning(Utf8(cp)) == cp
    ensures forall b | Shaped(b) && Meaning(b) == cp :: b == Utf8(cp) || |b| > |Utf8(cp)|
  {
    hide Follows, Meaning, Form, Width;
    Utf8IsShaped(cp);
    forall b | Shaped(b) && Meaning(b) == cp
      ensures b == Utf8(cp) || |b| > |Utf8(cp)|
    {
      ShapedIsForm(b);
    }
  }

  /** Adding up the bytes of any such sequence and subtracting the offset for its length gives what it means, shortest form or not. */
  lemma GatherIsMeaning(b: seq<Byte>)
    requires Shaped(b) && |b| > 1
    ensures Inverts(b, Meaning(b))
  {
    hide Inverts, Form, Lead, Cont, Six, Wide, Follows, Meaning2, Meaning3, Meaning4, Meaning5, Meaning6;
    ShapedIsForm(b);
    match |b| {
      case 2 =>
        Most2(b[0], b[1]);
        FormTwo(Meaning(b));
      case 3 =>
        Most3(b[0], b[1], b[2]);
        FormThree(Meaning(b));
      case 4 =>
        Most4(b[0], b[1], b[2], b[3]);
        FormFour(Meaning(b));
      case 5 =>
        Most5(b[0], b[1], b[2], b[3], b[4]);
        FormFive(Meaning(b));
      case _ =>
        Most6(b[0], b[1], b[2], b[3], b[4], b[5]);
        FormSix(Meaning(b));
    }
  }

  /** So no shorter sequence adds up to the code point; a byte below 80 stands for itself. */
  lemma NoShorterSpelling(cp: Ucs4, b: seq<Byte>)
    requires cp <= LAST && Shaped(b) && |b| < |Utf8(cp)|
    ensures if |b| == 1 then Wide(b[0]) != cp else Shifted(Gather(b), |b| - 1) != cp
  {
    hide Shaped, Shifted, Gather, Wide, Utf8;
    ShortestForm(cp);
    if |b| > 1 {
      GatherIsMeaning(b);
    } else {
      OneMeans(b);
    }
  }

  lemma OneMeans(b: seq<Byte>)
    requires Shaped(b) && |b| <= 1
    ensures |b| == 1 && Meaning(b) == Wide(b[0])
  {
    hide Wide;
  }
}
