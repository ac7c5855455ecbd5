/**
  The decomposition table against the other way round: which letter and mark
  make which composed character, by the canonical compositions of the Unicode
  Standard for Latin-1 and kana.
*/
module UtfComposed {
  import opened Utf

  // What a letter makes with a mark over or under it; 0 for no character of the table
  function Grave(base: Unit): Unit {
    match base
    case 0x41 => 0xC0
    case 0x45 => 0xC8
    case 0x49 => 0xCC
    case 0x4F => 0xD2
    case 0x55 => 0xD9
    case 0x61 => 0xE0
    case 0x65 => 0xE8
    case 0x69 => 0xEC
    case 0x6F => 0xF2
    case 0x75 => 0xF9
    case _ => 0
  }

  function Acute(base: Unit): Unit {
    match base
    case 0x41 => 0xC1
    case 0x45 => 0xC9
    case 0x49 => 0xCD
    case 0x4F => 0xD3
    case 0x55 => 0xDA
    case 0x59 => 0xDD
    case 0x61 => 0xE1
    case 0x65 => 0xE9
    case 0x69 => 0xED
    case 0x6F => 0xF3
    case 0x75 => 0xFA
    case 0x79 => 0xFD
    case _ => 0
  }

  function Circumflex(base: Unit): Unit {
    match base
    case 0x41 => 0xC2
    case 0x45 => 0xCA
    case 0x49 => 0xCE
    case 0x4F => 0xD4
    case 0x55 => 0xDB
    case 0x61 => 0xE2
    case 0x65 => 0xEA
    case 0x69 => 0xEE
    case 0x6F => 0xF4
    case 0x75 => 0xFB
    case _ => 0
  }

  function Tilde(base: Unit): Unit {
    match base
    case 0x41 => 0xC3
    case 0x4E => 0xD1
    case 0x4F => 0xD5
    case 0x61 => 0xE3
    case 0x6E => 0xF1
    case 0x6F => 0xF5
    case _ => 0
  }

  function Diaeresis(base: Unit): Unit {
    match base
    case 0x41 => 0xC4
    case 0x45 => 0xCB
    case 0x49 => 0xCF
    case 0x4F => 0xD6
    case 0x55 => 0xDC
    case 0x61 => 0xE4
    case 0x65 => 0xEB
    case 0x69 => 0xEF
    case 0x6F => 0xF6
    case 0x75 => 0xFC
    case 0x79 => 0xFF
    case _ => 0
  }

  function Ring(base: Unit): Unit {
    match base
    case 0x41 => 0xC5
    case 0x61 => 0xE5
    case _ => 0
  }

  function Cedilla(base: Unit): Unit {
    match base
    case 0x43 => 0xC7
    case 0x63 => 0xE7
    case _ => 0
  }

  // Hiragana and katakana stand in the same places of their blocks, 0x60 apart
  function Hiragana(base: Unit): Unit {
    if 0x30A1 <= base <= 0x30FE then base - 0x60 else base
  }

  // The voiced kana stands behind the unvoiced one, but for u, the small ones of the W row, and their like
  function Voiced(base: Unit): Unit {
    match base
    case 0x3046 => 0x3094
    case 0x30A6 => 0x30F4
    case 0x30EF => 0x30F7
    case 0x30F0 => 0x30F8
    case 0x30F1 => 0x30F9
    case 0x30F2 => 0x30FA
    case _ =>
      match Hiragana(base)
      case 0x304B | 0x304D | 0x304F | 0x3051 | 0x3053 => base + 1
      case 0x3055 | 0x3057 | 0x3059 | 0x305B | 0x305D => base + 1
      case 0x305F | 0x3061 | 0x3064 | 0x3066 | 0x3068 => base + 1
      case 0x306F | 0x3072 | 0x3075 | 0x3078 | 0x307B => base + 1
      case 0x309D => base + 1
      case _ => 0
  }

  // The H row has a second mark
  function HalfVoiced(base: Unit): Unit {
    match Hiragana(base)
    case 0x306F | 0x3072 | 0x3075 | 0x3078 | 0x307B => base + 2
    case _ => 0
  }

  function Composed(base: Unit, mark: Unit): Unit {
    match mark
    case 0x0300 => Grave(base)
    case 0x0301 => Acute(base)
    case 0x0302 => Circumflex(base)
    case 0x0303 => Tilde(base)
    case 0x0308 => Diaeresis(base)
    case 0x030A => Ring(base)
    case 0x0327 => Cedilla(base)
    case 0x3099 => Voiced(base)
    case 0x309A => HalfVoiced(base)
    case _ => 0
  }

  // ------------------------------------------------------------------
  // Every composition is taken apart

  lemma GraveBase(base: Unit)
    ensures Grave(base) != 0 ==> Primary(Grave(base)) == base
  {
  }

  lemma GraveMark(base: Unit)
    ensures Grave(base) != 0 ==> Combining(Grave(base)) == 0x00
  {
  }

  lemma GraveRange(base: Unit)
    ensures Grave(base) != 0 ==> 0xC0 <= Grave(base) <= 0xFF && base <= SMALL_Z
  {
  }

  lemma GraveComposed(base: Unit)
    ensures var u := Grave(base); u != 0 ==> 0xC0 <= u <= 0xFF && Latin(u) == (base, 0x0300)
  {
    hide Grave, Primary, Combining;
    GraveBase(base);
    GraveMark(base);
    GraveRange(base);
  }

  lemma AcuteBase(base: Unit)
    ensures Acute(base) != 0 ==> Primary(Acute(base)) == base
  {
  }

  lemma AcuteMark(base: Unit)
    ensures Acute(base) != 0 ==> Combining(Acute(base)) == 0x01
  {
  }

  lemma AcuteRange(base: Unit)
    ensures Acute(base) != 0 ==> 0xC0 <= Acute(base) <= 0xFF && base <= SMALL_Z
  {
  }

  lemma AcuteComposed(base: Unit)
    ensures var u := Acute(base); u != 0 ==> 0xC0 <= u <= 0xFF && Latin(u) == (base, 0x0301)
  {
    hide Acute, Primary, Combining;
    AcuteBase(base);
    AcuteMark(base);
    AcuteRange(base);
  }

  lemma CircumflexBase(base: Unit)
    ensures Circumflex(base) != 0 ==> Primary(Circumflex(base)) == base
  {
  }

  lemma CircumflexMark(base: Unit)
    ensures Circumflex(base) != 0 ==> Combining(Circumflex(base)) == 0x02
  {
  }

  lemma CircumflexRange(base: Unit)
    ensures Circumflex(base) != 0 ==> 0xC0 <= Circumflex(base) <= 0xFF && base <= SMALL_Z
  {
  }

  lemma CircumflexComposed(base: Unit)
    ensures var u := Circumflex(base); u != 0 ==> 0xC0 <= u <= 0xFF && Latin(u) == (base, 0x0302)
  {
    hide Circumflex, Primary, Combining;
    CircumflexBase(base);
    CircumflexMark(base);
    CircumflexRange(base);
  }

  lemma TildeBase(base: Unit)
    ensures Tilde(base) != 0 ==> Primary(Tilde(base)) == base
  {
  }

  lemma TildeMark(base: Unit)
    ensures Tilde(base) != 0 ==> Combining(Tilde(base)) == 0x03
  {
  }

  lemma TildeRange(base: Unit)
    ensures Tilde(base) != 0 ==> 0xC0 <= Tilde(base) <= 0xFF && base <= SMALL_Z
  {
  }

  lemma TildeComposed(base: Unit)
    ensures var u := Tilde(base); u != 0 ==> 0xC0 <= u <= 0xFF && Latin(u) == (base, 0x0303)
  {
    hide Tilde, Primary, Combining;
    TildeBase(base);
    TildeMark(base);
    TildeRange(base);
  }

  lemma DiaeresisBase(base: Unit)
    ensures Diaeresis(base) != 0 ==> Primary(Diaeresis(base)) == base
  {
  }

  lemma DiaeresisMark(base: Unit)
    ensures Diaeresis(base) != 0 ==> Combining(Diaeresis(base)) == 0x08
  {
  }

  lemma DiaeresisRange(base: Unit)
    ensures Diaeresis(base) != 0 ==> 0xC0 <= Diaeresis(base) <= 0xFF && base <= SMALL_Z
  {
  }

  lemma DiaeresisComposed(base: Unit)
    ensures var u := Diaeresis(base); u != 0 ==> 0xC0 <= u <= 0xFF && Latin(u) == (base, 0x0308)
  {
    hide Diaeresis, Primary, Combining;
    DiaeresisBase(base);
    DiaeresisMark(base);
    DiaeresisRange(base);
  }

  lemma RingBase(base: Unit)
    ensures Ring(base) != 0 ==> Primary(Ring(base)) == base
  {
  }

  lemma RingMark(base: Unit)
    ensures Ring(base) != 0 ==> Combining(Ring(base)) == 0x0A
  {
  }

  lemma RingRange(base: Unit)
    ensures Ring(base) != 0 ==> 0xC0 <= Ring(base) <= 0xFF && base <= SMALL_Z
  {
  }

  lemma RingComposed(base: Unit)
    ensures var u := Ring(base); u != 0 ==> 0xC0 <= u <= 0xFF && Latin(u) == (base, 0x030A)
  {
    hide Ring, Primary, Combining;
    RingBase(base);
    RingMark(base);
    RingRange(base);
  }

  lemma CedillaBase(base: Unit)
    ensures Cedilla(base) != 0 ==> Primary(Cedilla(base)) == base
  {
  }

  lemma CedillaMark(base: Unit)
    ensures Cedilla(base) != 0 ==> Combining(Cedilla(base)) == 0x27
  {
  }

  lemma CedillaRange(base: Unit)
    ensures Cedilla(base) != 0 ==> 0xC0 <= Cedilla(base) <= 0xFF && base <= SMALL_Z
  {
  }

  lemma CedillaComposed(base: Unit)
    ensures var u := Cedilla(base); u != 0 ==> 0xC0 <= u <= 0xFF && Latin(u) == (base, 0x0327)
  {
    hide Cedilla, Primary, Combining;
    CedillaBase(base);
    CedillaMark(base);
    CedillaRange(base);
  }

  lemma VoicedBit(base: Unit)
    ensures Voiced(base) != 0 ==> 0x3000 < Voiced(base) < 0x3100 && WordBit(Voiced(base))
  {
  }

  lemma VoicedBase(base: Unit)
    ensures Voiced(base) != 0 ==> Kana(Voiced(base)) == (base, 0x3099)
  {
  }

  lemma VoicedComposed(base: Unit)
    ensures var u := Voiced(base); u != 0 ==> 0x3000 < u < 0x3100 && WordBit(u) && Kana(u) == (base, 0x3099)
  {
    hide Voiced, WordBit, Kana;
    VoicedBit(base);
    VoicedBase(base);
  }

  lemma HalfVoicedComposed(base: Unit)
    ensures var u := HalfVoiced(base); u != 0 ==> 0x3000 < u < 0x3100 && WordBit(u) && Kana(u) == (base, 0x309A)
  {
  }

  // ------------------------------------------------------------------
  // Whatever is taken apart is composed

  lemma IsGrave(u: Unit)
    ensures Combining(u) == 0x00 ==> Grave(Primary(u)) == u
  {
  }

  lemma IsAcute(u: Unit)
    ensures Combining(u) == 0x01 ==> Acute(Primary(u)) == u
  {
  }

  lemma IsCircumflex(u: Unit)
    ensures Combining(u) == 0x02 ==> Circumflex(Primary(u)) == u
  {
  }

  lemma IsTilde(u: Unit)
    ensures Combining(u) == 0x03 ==> Tilde(Primary(u)) == u
  {
  }

  lemma IsDiaeresis(u: Unit)
    ensures Combining(u) == 0x08 ==> Diaeresis(Primary(u)) == u
  {
  }

  lemma IsRing(u: Unit)
    ensures Combining(u) == 0x0A ==> Ring(Primary(u)) == u
  {
  }

  lemma IsCedilla(u: Unit)
    ensures Combining(u) == 0x27 ==> Cedilla(Primary(u)) == u
  {
  }

  lemma OtherMark(u: Unit)
    ensures Combining(u) in [0x00, 0x01, 0x02, 0x03, 0x08, 0x0A, 0x27] || Primary(u) == u
  {
  }

  lemma LatinIsComposed(u: Unit)
    requires 0xC0 <= u <= 0xFF && Latin(u).1 != 0
    ensures Composed(Latin(u).0, Latin(u).1) == u
  {
    hide Primary, Combining, Grave, Acute, Circumflex, Tilde, Diaeresis, Ring, Cedilla;
    OtherMark(u);
    IsGrave(u);
    IsAcute(u);
    IsCircumflex(u);
    IsTilde(u);
    IsDiaeresis(u);
    IsRing(u);
    IsCedilla(u);
  }

  lemma HiraganaIsComposed(u: Unit)
    requires 0x3000 < u < 0x30A0 && WordBit(u)
    ensures Composed(Kana(u).0, Kana(u).1) == u
  {
  }

  lemma KatakanaIsComposed(u: Unit)
    requires 0x30A0 <= u < 0x3100 && WordBit(u)
    ensures Composed(Kana(u).0, Kana(u).1) == u
  {
  }

  // ------------------------------------------------------------------
  // The two tables

  lemma TakenApart(u: Unit)
    ensures var (d, c) := Decomposer(u); c != 0 ==> Composed(d, c) == u
  {
    hide Latin, Kana, KanaBit, WordBit, Composed;
    if 0xC0 <= u <= 0xFF {
      if Latin(u).1 != 0 {
        LatinIsComposed(u);
      }
    } else if 0x3000 < u < 0x3100 && KanaBit(u) {
      KanaBitIs(u);
      if u < 0x30A0 {
        HiraganaIsComposed(u);
      } else {
        KatakanaIsComposed(u);
      }
    }
  }

  lemma PutTogether(base: Unit, mark: Unit)
    ensures var u := Composed(base, mark); u != 0 ==> Decomposer(u) == (base, mark)
  {
    hide Latin, Kana, KanaBit, WordBit, Grave, Acute, Circumflex, Tilde, Diaeresis, Ring, Cedilla, Voiced, HalfVoiced;
    match mark {
      case 0x0300 => GraveComposed(base);
      case 0x0301 => AcuteComposed(base);
      case 0x0302 => CircumflexComposed(base);
      case 0x0303 => TildeComposed(base);
      case 0x0308 => DiaeresisComposed(base);
      case 0x030A => RingComposed(base);
      case 0x0327 => CedillaComposed(base);
      case 0x3099 =>
        VoicedComposed(base);
        BitOf(Voiced(base));
      case 0x309A =>
        HalfVoicedComposed(base);
        BitOf(HalfVoiced(base));
      case _ =>
    }
  }

  lemma BitOf(u: Unit)
    ensures 0x3000 <= u < 0x3100 ==> KanaBit(u) == WordBit(u)
  {
    if 0x3000 <= u < 0x3100 {
      KanaBitIs(u);
    }
  }

  /** A character is taken apart into a letter and a mark exactly when these make it. */
  lemma DecomposedIffComposed(u: Unit, base: Unit, mark: Unit)
    requires u != 0 && mark != 0
    ensures Decomposer(u) == (base, mark) <==> Composed(base, mark) == u
  {
    hide Decomposer, Composed;
    TakenApart(u);
    PutTogether(base, mark);
  }

  lemma WithoutMark(u: Unit)
    ensures Decomposer(u).1 == 0 ==> Decomposer(u).0 == u
  {
    hide Decomposer;
    PartsAreWhole(u);
  }

  /** No two characters have the same parts. */
  lemma PiecesAreDistinct(u: Unit, v: Unit)
    requires Pieces(u) == Pieces(v)
    ensures u == v
  {
    hide Decomposer, Composed;
    TakenApart(u);
    TakenApart(v);
    WithoutMark(u);
    WithoutMark(v);
  }

  lemma PrimaryInBothCases(u: Unit)
    requires 0xC0 <= u <= 0xDE
    ensures Primary(u) != u <==> Primary(u + 0x20) != u + 0x20
    ensures Primary(u) != u ==> Primary(u + 0x20) == Primary(u) + 0x20
  {
  }

  lemma CombiningInBothCases(u: Unit)
    requires 0xC0 <= u <= 0xDE
    ensures Combining(u + 0x20) == Combining(u)
  {
  }

  lemma PlainLetters(u: Unit)
    requires 0xC0 <= u <= 0xDE
    ensures Primary(u) <= SMALL_Z <==> Primary(u) != u
    ensures Primary(u + 0x20) <= SMALL_Z <==> Primary(u + 0x20) != u + 0x20
  {
    hide Primary;
    PrimaryIsLetter(u);
    PrimaryIsLetter(u + 0x20);
  }

  /** A capital letter and its small one, 0x20 behind, have the same mark or none. */
  lemma MarkInBothCases(u: Unit)
    requires 0xC0 <= u <= 0xDE
    ensures Decomposer(u + 0x20).1 == Decomposer(u).1
    ensures Decomposer(u).1 != 0 ==> Decomposer(u + 0x20).0 == Decomposer(u).0 + 0x20
  {
    hide Primary, Combining;
    PrimaryInBothCases(u);
    CombiningInBothCases(u);
    PlainLetters(u);
  }
}
