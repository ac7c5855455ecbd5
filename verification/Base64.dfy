/**
  The Base64 codecs: two encoders and two decoders. Text is a string of
  characters, data a sequence of 8-bit bytes, and a sextet is a byte below 64.
*/
module Base64 {
  type Byte = bv8

  const ALPHABET: string := "ABCDEFGHIJKLMNOPQRSTUVWXYZ" + "abcdefghijklmnopqrstuvwxyz" + "0123456789+/"
  const PAD := '='
  const NUL := '\0'

  // What find and strchr answer: the first place of the character in the table, or none
  function IndexOf(c: char, from: nat): (i: nat)
    requires from <= |ALPHABET|
    ensures from <= i <= |ALPHABET|
    ensures i < |ALPHABET| ==> ALPHABET[i] == c
    ensures i == |ALPHABET| ==> forall k | from <= k < |ALPHABET| :: ALPHABET[k] != c
    decreases |ALPHABET| - from
  {
    if from == |ALPHABET| || ALPHABET[from] == c then from else IndexOf(c, from + 1)
  }

  predicate InAlphabet(c: char) {
    IndexOf(c, 0) < |ALPHABET|
  }

  // is_base64, with isalnum of the C locale
  predicate IsBase64(c: char) {
    '0' <= c <= '9' || 'A' <= c <= 'Z' || 'a' <= c <= 'z' || c == '+' || c == '/'
  }

  // isspace of the C locale
  predicate IsSpace(c: char) {
    c == ' ' || '\t' <= c <= '\r'
  }

  function Letter(i: nat): char
    requires i < 64
  {
    if i < 26 then 'A' + i as char
    else if i < 52 then 'a' + (i - 26) as char
    else if i < 62 then '0' + (i - 52) as char
    else if i == 62 then '+' else '/'
  }

  lemma TableIs(i: nat)
    requires i < 64
    ensures |ALPHABET| == 64 && ALPHABET[i] == Letter(i)
  {
    if i < 26 {
      assert ALPHABET[i] == "ABCDEFGHIJKLMNOPQRSTUVWXYZ"[i];
    } else if i < 52 {
      assert ALPHABET[i] == "abcdefghijklmnopqrstuvwxyz"[i - 26];
    } else {
      assert ALPHABET[i] == "0123456789+/"[i - 52];
    }
  }

  lemma SixtyFour()
    ensures |ALPHABET| == 64
  {
  }

  /** A character is in the table exactly when is_base64 takes it; neither NUL nor the pad is. */
  lemma AlphabetIsBase64(c: char)
    ensures InAlphabet(c) <==> IsBase64(c)
    ensures InAlphabet(c) ==> c != PAD && c != NUL && !IsSpace(c)
  {
    hide ALPHABET;
    SixtyFour();
    var i := IndexOf(c, 0);
    if i < 64 {
      TableIs(i);
    }
    if IsBase64(c) {
      var k := if 'A' <= c <= 'Z' then (c - 'A') as int
               else if 'a' <= c <= 'z' then (c - 'a') as int + 26
               else if '0' <= c <= '9' then (c - '0') as int + 52
               else if c == '+' then 62 else 63;
      TableIs(k);
    }
  }

  // base64_chars[x]
  function Symbol(x: Byte): char
    requires x < 64
  {
    SixtyFour();
    ALPHABET[x as int]
  }

  // The place of a character in the table as a byte; find's "not found" becomes 255 in an unsigned char
  function Sextet(c: char): (x: Byte)
    ensures InAlphabet(c) ==> x < 64 && Symbol(x) == c
  {
    SixtyFour();
    var i := IndexOf(c, 0);
    if i < 64 then IntByte(i); i as bv8 else 0xFF
  }

  lemma IntByte(i: int)
    requires 0 <= i < 64
    ensures i as bv8 < 64 && (i as bv8) as int == i
  {
    match i {
      case 0 => case 1 => case 2 => case 3 => case 4 => case 5 => case 6 => case 7 =>
      case 8 => case 9 => case 10 => case 11 => case 12 => case 13 => case 14 => case 15 =>
      case 16 => case 17 => case 18 => case 19 => case 20 => case 21 => case 22 => case 23 =>
      case 24 => case 25 => case 26 => case 27 => case 28 => case 29 => case 30 => case 31 =>
      case 32 => case 33 => case 34 => case 35 => case 36 => case 37 => case 38 => case 39 =>
      case 40 => case 41 => case 42 => case 43 => case 44 => case 45 => case 46 => case 47 =>
      case 48 => case 49 => case 50 => case 51 => case 52 => case 53 => case 54 => case 55 =>
      case 56 => case 57 => case 58 => case 59 => case 60 => case 61 => case 62 => case 63 =>
    }
  }

  lemma LettersDiffer(i: nat, j: nat)
    requires i < 64 && j < 64 && Letter(i) == Letter(j)
    ensures i == j
  {
  }

  lemma SextetOfSymbol(x: Byte)
    requires x < 64
    ensures InAlphabet(Symbol(x)) && Sextet(Symbol(x)) == x
  {
    hide ALPHABET, Letter;
    SixtyFour();
    var i := x as int;
    var k := IndexOf(Symbol(x), 0);
    TableIs(i);
    assert k < 64;
    TableIs(k);
    LettersDiffer(i, k);
  }

  predicate AreSextets(vs: seq<Byte>) {
    forall i | 0 <= i < |vs| :: vs[i] < 64
  }

  function Symbols(vs: seq<Byte>): (s: string)
    requires AreSextets(vs)
    ensures |s| == |vs| && forall i | 0 <= i < |s| :: s[i] == Symbol(vs[i])
  {
    seq(|vs|, i requires 0 <= i < |vs| => Symbol(vs[i]))
  }

  function Values(s: string): (vs: seq<Byte>)
    ensures |vs| == |s| && forall i | 0 <= i < |s| :: vs[i] == Sextet(s[i])
  {
    seq(|s|, i requires 0 <= i < |s| => Sextet(s[i]))
  }

  // ------------------------------------------------------------------
  // The encoding

  // Three bytes as four sextets: six bits of the first, two and four, four and two, and six of the last
  function S0(a: Byte): (x: Byte)
    ensures x < 64
  {
    a >> 2
  }

  function S1(a: Byte, b: Byte): (x: Byte)
    ensures x < 64
  {
    ((a & 0x03) << 4) | (b >> 4)
  }

  function S2(b: Byte, c: Byte): (x: Byte)
    ensures x < 64
  {
    ((b & 0x0f) << 2) | (c >> 6)
  }

  function S3(c: Byte): (x: Byte)
    ensures x < 64
  {
    c & 0x3f
  }

  lemma SplitLast<T>(s: seq<T>, a: T, b: T, c: T, d: T)
    ensures s + [a, b] == s + [a] + [b]
    ensures s + [a, b, c] == s + [a, b] + [c]
    ensures s + [a, b, c, d] == s + [a, b, c] + [d]
    ensures (s + [a])[..|s|] == (s + [a, b])[..|s|] == (s + [a, b, c])[..|s|] == (s + [a, b, c, d])[..|s|] == s
  {
  }

  // Where the last group of at most three, or of at most four, starts
  function LastThree(n: nat): (m: nat)
    requires n > 0
    ensures m % 3 == 0 && m < n <= m + 3
  {
    (n - 1) / 3 * 3
  }

  lemma LastThreeIs(n: nat, m: nat)
    requires m % 3 == 0 && m < n <= m + 3
    ensures LastThree(n) == m
  {
    assert m == 3 * (m / 3);
  }

  function LastFour(n: nat): (m: nat)
    requires n > 0
    ensures m % 4 == 0 && m < n <= m + 4
  {
    (n - 1) / 4 * 4
  }

  // Whole groups of three bytes, then what is left, filled up with zeros, as far as it reaches
  function Sextets(bytes: seq<Byte>): (vs: seq<Byte>)
    ensures AreSextets(vs)
    decreases |bytes|
  {
    if bytes == [] then []
    else
      var m := LastThree(|bytes|);
      var p, a := Sextets(bytes[..m]), bytes[m];
      if |bytes| == m + 1 then p + [S0(a), S1(a, 0)]
      else if |bytes| == m + 2 then p + [S0(a), S1(a, bytes[m+1]), S2(bytes[m+1], 0)]
      else p + [S0(a), S1(a, bytes[m+1]), S2(bytes[m+1], bytes[m+2]), S3(bytes[m+2])]
  }

  // Pads complete the last group of four characters
  function Pads(symbols: nat): string {
    if symbols % 4 == 2 then [PAD, PAD] else if symbols % 4 == 3 then [PAD] else []
  }

  /** RFC 4648, section 4: the sextets as characters, padded to a multiple of four. */
  function Encode(bytes: seq<Byte>): string {
    Symbols(Sextets(bytes)) + Pads(|Sextets(bytes)|)
  }

  lemma {:induction false} SextetCount(bytes: seq<Byte>)
    ensures |Sextets(bytes)| == (4 * |bytes| + 2) / 3
    decreases |bytes|
  {
    hide S0, S1, S2, S3, LastThree;
    if bytes != [] {
      SextetCount(bytes[..LastThree(|bytes|)]);
    }
  }

  // Counting in groups of four
  lemma Quarter(q: nat, r: nat)
    requires r < 4
    ensures (4 * q + r) % 4 == r && (4 * q + r) / 4 == q
    ensures 3 * (4 * q + r) / 4 == 3 * q + if r == 0 then 0 else r - 1
  {
  }

  lemma NextInGroup(n: nat)
    ensures (n + 1) % 4 == if n % 4 == 3 then 0 else n % 4 + 1
    ensures 3 * (n + 1) / 4 == 3 * n / 4 + if n % 4 == 0 then 0 else 1
  {
    var q, r := n / 4, n % 4;
    Quarter(q, r);
    if r == 3 {
      Quarter(q + 1, 0);
    } else {
      Quarter(q, r + 1);
    }
  }

  // How many sextets n bytes give, and how many pads complete them
  lemma CountSextets(n: nat)
    ensures var m := (4 * n + 2) / 3;
            && m % 4 == (if n % 3 == 0 then 0 else if n % 3 == 1 then 2 else 3)
            && m + |Pads(m)| == (n + 2) / 3 * 4
  {
    var k, r := n / 3, n % 3;
    assert (4 * n + 2) / 3 == 4 * k + (4 * r + 2) / 3 && (n + 2) / 3 == k + (r + 2) / 3;
    Quarter(k, if r == 0 then 0 else r + 1);
  }

  lemma EncodedLength(bytes: seq<Byte>)
    ensures |Encode(bytes)| == (|bytes| + 2) / 3 * 4
  {
    hide Sextets, Pads;
    SextetCount(bytes);
    CountSextets(|bytes|);
  }

  // ------------------------------------------------------------------
  // The decoding: whole bytes, and the bits that slop over

  // The bits that a sextet leaves for the next byte, by its place in its group
  function Rest(place: nat, v: Byte): Byte {
    match place
    case 0 => v << 2
    case 1 => (v & 0x0f) << 4
    case 2 => (v & 0x03) << 6
    case _ => 0
  }

  // The byte that a sextet completes
  function Complete(place: nat, slop: Byte, v: Byte): Byte {
    match place
    case 1 => slop | (v >> 4)
    case 2 => slop | (v >> 2)
    case _ => slop | v
  }

  function Slop(vs: seq<Byte>): Byte {
    if vs == [] then 0 else Rest((|vs| - 1) % 4, vs[|vs|-1])
  }

  function Whole(vs: seq<Byte>): (bytes: seq<Byte>)
    decreases |vs|
  {
    if vs == [] then []
    else
      var n := |vs| - 1;
      if n % 4 == 0 then Whole(vs[..n]) else Whole(vs[..n]) + [Complete(n % 4, Slop(vs[..n]), vs[n])]
  }

  lemma {:induction false} WholeCount(vs: seq<Byte>)
    ensures |Whole(vs)| == 3 * |vs| / 4
    decreases |vs|
  {
    hide Complete, Rest, Slop;
    if vs != [] {
      NextInGroup(|vs| - 1);
      WholeCount(vs[..|vs|-1]);
    }
  }

  // The first sextet of a group completes no byte, each other one does
  lemma WholeStart(vs: seq<Byte>, v: Byte)
    requires |vs| % 4 == 0
    ensures Whole(vs + [v]) == Whole(vs) && Slop(vs + [v]) == Rest(0, v)
  {
    hide Whole, Slop, Complete, Rest;
    WholeSnoc(vs, v);
  }

  lemma WholeNext(vs: seq<Byte>, v: Byte, place: nat)
    requires |vs| % 4 == place != 0
    ensures Whole(vs + [v]) == Whole(vs) + [Complete(place, Slop(vs), v)] && Slop(vs + [v]) == Rest(place, v)
  {
    hide Whole, Slop, Complete, Rest;
    WholeSnoc(vs, v);
  }

  lemma WholeSnoc(vs: seq<Byte>, v: Byte)
    ensures Slop(vs + [v]) == Rest(|vs| % 4, v)
    ensures Whole(vs + [v]) == if |vs| % 4 == 0 then Whole(vs) else Whole(vs) + [Complete(|vs| % 4, Slop(vs), v)]
  {
    hide Complete, Rest;
    assert (vs + [v])[..|vs|] == vs;
  }

  // The first bytes of a group of sextets
  function First(a: Byte, b: Byte): Byte {
    Complete(1, Rest(0, a), b)
  }

  function Second(b: Byte, c: Byte): Byte {
    Complete(2, Rest(1, b), c)
  }

  function Third(c: Byte, d: Byte): Byte {
    Complete(3, Rest(2, c), d)
  }

  lemma GroupBytes(a: Byte, b: Byte, c: Byte, d: Byte)
    ensures First(a, b) == Complete(1, Rest(0, a), b)
    ensures Second(b, c) == Complete(2, Rest(1, b), c)
    ensures Third(c, d) == Complete(3, Rest(2, c), d)
  {
    hide Complete, Rest;
  }

  lemma WholeTwo(vs: seq<Byte>, a: Byte, b: Byte)
    requires |vs| % 4 == 0
    ensures Whole(vs + [a, b]) == Whole(vs) + [First(a, b)] && Slop(vs + [a, b]) == Rest(1, b)
  {
    hide *;
    var p := vs + [a];
    assert p + [b] == vs + [a, b];
    NextInGroup(|vs|);
    WholeStart(vs, a);
    WholeNext(p, b, 1);
    GroupBytes(a, b, b, b);
  }

  lemma WholeThree(vs: seq<Byte>, a: Byte, b: Byte, c: Byte)
    requires |vs| % 4 == 0
    ensures Whole(vs + [a, b, c]) == Whole(vs) + [First(a, b), Second(b, c)] && Slop(vs + [a, b, c]) == Rest(2, c)
  {
    hide *;
    NextInGroup(|vs|);
    NextInGroup(|vs| + 1);
    WholeTwo(vs, a, b);
    WholeNext(vs + [a, b], c, 2);
    SplitLast(vs, a, b, c, c);
    SplitLast(Whole(vs), First(a, b), Second(b, c), c, c);
    GroupBytes(a, b, c, c);
  }

  lemma WholeFour(vs: seq<Byte>, a: Byte, b: Byte, c: Byte, d: Byte)
    requires |vs| % 4 == 0
    ensures Whole(vs + [a, b, c, d]) == Whole(vs) + [First(a, b), Second(b, c), Third(c, d)]
    ensures Slop(vs + [a, b, c, d]) == Rest(3, d)
  {
    hide *;
    NextInGroup(|vs|);
    NextInGroup(|vs| + 1);
    NextInGroup(|vs| + 2);
    WholeThree(vs, a, b, c);
    WholeNext(vs + [a, b, c], d, 3);
    SplitLast(vs, a, b, c, d);
    SplitLast(Whole(vs), First(a, b), Second(b, c), Third(c, d), d);
    GroupBytes(a, b, c, d);
  }

  lemma GroupThere(a: Byte, b: Byte, c: Byte)
    ensures First(S0(a), S1(a, b)) == a
    ensures Second(S1(a, b), S2(b, c)) == b
    ensures Third(S2(b, c), S3(c)) == c
    ensures Rest(1, S1(a, 0)) == 0 && Rest(2, S2(b, 0)) == 0
  {
  }

  lemma GroupBack(a: Byte, b: Byte, c: Byte, d: Byte)
    requires a < 64 && b < 64 && c < 64 && d < 64
    ensures S0(First(a, b)) == a
    ensures S1(First(a, b), Second(b, c)) == b
    ensures S2(Second(b, c), Third(c, d)) == c
    ensures S3(Third(c, d)) == d
    ensures Rest(1, b) == 0 ==> S1(First(a, b), 0) == b
    ensures Rest(2, c) == 0 ==> S2(Second(b, c), 0) == c
  {
  }

  /** Decoding the sextets of any bytes gives the bytes back, with nothing slopping over. */
  lemma {:induction false} WholeOfSextets(bytes: seq<Byte>)
    ensures Whole(Sextets(bytes)) == bytes && Slop(Sextets(bytes)) == 0
    decreases |bytes|
  {
    hide Whole, Slop, Rest, Complete, First, Second, Third, S0, S1, S2, S3;
    var n := |bytes|;
    if n == 0 {
      NothingWhole();
    } else {
      var m := LastThree(n);
      var p := bytes[..m];
      var a := bytes[m];
      WholeOfSextets(p);
      SextetCount(p);
      if n == m + 1 {
        GroupThere(a, 0, 0);
        WholeTwo(Sextets(p), S0(a), S1(a, 0));
        assert bytes == p + [a];
      } else if n == m + 2 {
        var b := bytes[m+1];
        GroupThere(a, b, 0);
        WholeThree(Sextets(p), S0(a), S1(a, b), S2(b, 0));
        assert bytes == p + [a, b];
      } else {
        var b, c := bytes[m+1], bytes[m+2];
        GroupThere(a, b, c);
        WholeFour(Sextets(p), S0(a), S1(a, b), S2(b, c), S3(c));
        NoRest(S3(c));
        assert bytes == p + [a, b, c];
      }
    }
  }

  lemma NoRest(v: Byte)
    ensures Rest(3, v) == 0
  {
  }

  lemma NothingWhole()
    ensures Whole([]) == [] && Slop([]) == 0 && Sextets([]) == []
  {
  }

  // Sextets of bytes that end on a group, and one, two or three bytes more
  lemma SextetsMore(p: seq<Byte>, a: Byte, b: Byte, c: Byte)
    requires |p| % 3 == 0
    ensures Sextets(p + [a]) == Sextets(p) + [S0(a), S1(a, 0)]
    ensures Sextets(p + [a, b]) == Sextets(p) + [S0(a), S1(a, b), S2(b, 0)]
    ensures Sextets(p + [a, b, c]) == Sextets(p) + [S0(a), S1(a, b), S2(b, c), S3(c)]
  {
    hide Sextets;
    SplitLast(p, a, b, c, c);
    SextetsOneMore(p, p + [a]);
    SextetsTwoMore(p, p + [a, b]);
    SextetsThreeMore(p, p + [a, b, c]);
  }

  lemma SextetsOneMore(p: seq<Byte>, bytes: seq<Byte>)
    requires |p| % 3 == 0 && |bytes| == |p| + 1 && bytes[..|p|] == p
    ensures Sextets(bytes) == Sextets(p) + [S0(bytes[|p|]), S1(bytes[|p|], 0)]
  {
    hide S0, S1, S2, S3, LastThree, AreSextets;
    LastThreeIs(|bytes|, |p|);
  }

  lemma SextetsTwoMore(p: seq<Byte>, bytes: seq<Byte>)
    requires |p| % 3 == 0 && |bytes| == |p| + 2 && bytes[..|p|] == p
    ensures Sextets(bytes) == Sextets(p) + [S0(bytes[|p|]), S1(bytes[|p|], bytes[|p|+1]), S2(bytes[|p|+1], 0)]
  {
    hide S0, S1, S2, S3, LastThree, AreSextets;
    LastThreeIs(|bytes|, |p|);
  }

  lemma SextetsThreeMore(p: seq<Byte>, bytes: seq<Byte>)
    requires |p| % 3 == 0 && |bytes| == |p| + 3 && bytes[..|p|] == p
    ensures Sextets(bytes) == Sextets(p) + [S0(bytes[|p|]), S1(bytes[|p|], bytes[|p|+1]), S2(bytes[|p|+1], bytes[|p|+2]), S3(bytes[|p|+2])]
  {
    hide S0, S1, S2, S3, LastThree, AreSextets;
    LastThreeIs(|bytes|, |p|);
  }

  // One more group, of two, three or four sextets, that nothing slops over from
  lemma TwoOfWhole(p: seq<Byte>, a: Byte, b: Byte)
    requires |p| % 4 == 0 && Sextets(Whole(p)) == p && a < 64 && b < 64 && Rest(1, b) == 0
    ensures Sextets(Whole(p + [a, b])) == p + [a, b]
  {
    hide *;
    var x := First(a, b);
    WholeCount(p);
    WholeTwo(p, a, b);
    SextetsMore(Whole(p), x, 0, 0);
    GroupBack(a, b, 0, 0);
    SameGroup(p, S0(x), S1(x, 0), 0, 0, a, b, 0, 0);
  }

  lemma ThreeOfWhole(p: seq<Byte>, a: Byte, b: Byte, c: Byte)
    requires |p| % 4 == 0 && Sextets(Whole(p)) == p && a < 64 && b < 64 && c < 64 && Rest(2, c) == 0
    ensures Sextets(Whole(p + [a, b, c])) == p + [a, b, c]
  {
    hide *;
    var x, y := First(a, b), Second(b, c);
    WholeCount(p);
    WholeThree(p, a, b, c);
    SextetsMore(Whole(p), x, y, 0);
    GroupBack(a, b, c, 0);
    SameGroup(p, S0(x), S1(x, y), S2(y, 0), 0, a, b, c, 0);
  }

  lemma FourOfWhole(p: seq<Byte>, a: Byte, b: Byte, c: Byte, d: Byte)
    requires |p| % 4 == 0 && Sextets(Whole(p)) == p && a < 64 && b < 64 && c < 64 && d < 64
    ensures Sextets(Whole(p + [a, b, c, d])) == p + [a, b, c, d]
  {
    hide *;
    var x, y, z := First(a, b), Second(b, c), Third(c, d);
    WholeCount(p);
    WholeFour(p, a, b, c, d);
    SextetsMore(Whole(p), x, y, z);
    GroupBack(a, b, c, d);
    SameGroup(p, S0(x), S1(x, y), S2(y, z), S3(z), a, b, c, d);
  }

  lemma SameGroup(p: seq<Byte>, s: Byte, t: Byte, u: Byte, v: Byte, a: Byte, b: Byte, c: Byte, d: Byte)
    requires s == a && t == b
    ensures p + [s, t] == p + [a, b]
    ensures u == c ==> p + [s, t, u] == p + [a, b, c]
    ensures u == c && v == d ==> p + [s, t, u, v] == p + [a, b, c, d]
  {
  }

  lemma CutGroup(vs: seq<Byte>, m: nat)
    requires AreSextets(vs) && m <= |vs|
    ensures AreSextets(vs[..m])
    ensures |vs| == m + 2 ==> vs == vs[..m] + [vs[m], vs[m+1]] && vs[m] < 64 && vs[m+1] < 64
    ensures |vs| == m + 3 ==> vs == vs[..m] + [vs[m], vs[m+1], vs[m+2]] && vs[m] < 64 && vs[m+1] < 64 && vs[m+2] < 64
    ensures |vs| == m + 4 ==> vs == vs[..m] + [vs[m], vs[m+1], vs[m+2], vs[m+3]] && vs[m] < 64 && vs[m+1] < 64 && vs[m+2] < 64 && vs[m+3] < 64
  {
  }

  /** Encoding what sextets decode to gives them back, if they end where a byte ends and nothing slops over. */
  lemma {:induction false} SextetsOfWhole(vs: seq<Byte>)
    requires AreSextets(vs) && |vs| % 4 != 1 && Slop(vs) == 0
    ensures Sextets(Whole(vs)) == vs
    decreases |vs|
  {
    hide *;
    var n := |vs|;
    if n == 0 {
      NothingWhole();
    } else {
      var m := LastFour(n);
      var p := vs[..m];
      CutGroup(vs, m);
      SlopAtGroup(p);
      SextetsOfWhole(p);
      SlopAtEnd(vs);
      if n == m + 2 {
        TwoOfWhole(p, vs[m], vs[m+1]);
      } else if n == m + 3 {
        ThreeOfWhole(p, vs[m], vs[m+1], vs[m+2]);
      } else {
        FourOfWhole(p, vs[m], vs[m+1], vs[m+2], vs[m+3]);
      }
    }
  }

  lemma SlopAtEnd(vs: seq<Byte>)
    requires vs != []
    ensures Slop(vs) == Rest((|vs| - 1) % 4, vs[|vs|-1])
  {
    hide Rest;
  }

  lemma SlopAtGroup(vs: seq<Byte>)
    requires |vs| % 4 == 0
    ensures Slop(vs) == 0
  {
  }

  // ------------------------------------------------------------------
  // Bit by bit

  // Bit i of a byte, the highest first
  predicate BitAt(x: Byte, i: nat)
    requires i < 8
  {
    match i
    case 0 => x & 0x80 != 0
    case 1 => x & 0x40 != 0
    case 2 => x & 0x20 != 0
    case 3 => x & 0x10 != 0
    case 4 => x & 0x08 != 0
    case 5 => x & 0x04 != 0
    case 6 => x & 0x02 != 0
    case _ => x & 0x01 != 0
  }

  function ByteBits(x: Byte): (bits: seq<bool>)
    ensures |bits| == 8 && forall i | 0 <= i < 8 :: bits[i] == BitAt(x, i)
  {
    seq(8, i requires 0 <= i < 8 => BitAt(x, i))
  }

  // The low six bits
  function SextetBits(x: Byte): (bits: seq<bool>)
    ensures |bits| == 6 && forall i | 0 <= i < 6 :: bits[i] == BitAt(x, i + 2)
  {
    seq(6, i requires 0 <= i < 6 => BitAt(x, i + 2))
  }

  // Data as a string of bits, the highest bit of each byte first
  function Bits(bytes: seq<Byte>): (bits: seq<bool>)
    ensures |bits| == 8 * |bytes|
    decreases |bytes|
  {
    if bytes == [] then [] else Bits(bytes[..|bytes|-1]) + ByteBits(bytes[|bytes|-1])
  }

  function SixBits(vs: seq<Byte>): (bits: seq<bool>)
    ensures |bits| == 6 * |vs|
    decreases |vs|
  {
    if vs == [] then [] else SixBits(vs[..|vs|-1]) + SextetBits(vs[|vs|-1])
  }

  // How many bits sextets leave over after their last whole byte
  function Over(n: nat): (k: nat)
    ensures k <= 6 && 6 * n == 8 * (3 * n / 4) + k
  {
    match n % 4
    case 0 => 0
    case 1 => 6
    case 2 => 4
    case _ => 2
  }

  lemma BitsSnoc(bytes: seq<Byte>, x: Byte)
    ensures Bits(bytes + [x]) == Bits(bytes) + ByteBits(x)
  {
    hide ByteBits;
    assert (bytes + [x])[..|bytes|] == bytes;
  }

  lemma PlaceZero(v: Byte)
    ensures SextetBits(v) == ByteBits(Rest(0, v))[..6]
  {
    forall i | 0 <= i < 6
      ensures BitAt(v, i + 2) == BitAt(Rest(0, v), i)
    {
    }
  }

  // Where each bit of a sextet goes: to the end of the byte in progress, or to the front of the next
  lemma PlaceOne(u: Byte, v: Byte)
    requires v < 64
    ensures && BitAt(Complete(1, Rest(0, u), v), 0) == BitAt(Rest(0, u), 0)
            && BitAt(Complete(1, Rest(0, u), v), 1) == BitAt(Rest(0, u), 1)
            && BitAt(Complete(1, Rest(0, u), v), 2) == BitAt(Rest(0, u), 2)
            && BitAt(Complete(1, Rest(0, u), v), 3) == BitAt(Rest(0, u), 3)
    ensures && BitAt(Complete(1, Rest(0, u), v), 4) == BitAt(Rest(0, u), 4)
            && BitAt(Complete(1, Rest(0, u), v), 5) == BitAt(Rest(0, u), 5)
            && BitAt(Complete(1, Rest(0, u), v), 6) == BitAt(v, 2)
            && BitAt(Complete(1, Rest(0, u), v), 7) == BitAt(v, 3)
    ensures && BitAt(Rest(1, v), 0) == BitAt(v, 4)
            && BitAt(Rest(1, v), 1) == BitAt(v, 5)
            && BitAt(Rest(1, v), 2) == BitAt(v, 6)
            && BitAt(Rest(1, v), 3) == BitAt(v, 7)
  {
  }

  lemma PlaceTwo(u: Byte, v: Byte)
    requires v < 64
    ensures && BitAt(Complete(2, Rest(1, u), v), 0) == BitAt(Rest(1, u), 0)
            && BitAt(Complete(2, Rest(1, u), v), 1) == BitAt(Rest(1, u), 1)
            && BitAt(Complete(2, Rest(1, u), v), 2) == BitAt(Rest(1, u), 2)
            && BitAt(Complete(2, Rest(1, u), v), 3) == BitAt(Rest(1, u), 3)
    ensures && BitAt(Complete(2, Rest(1, u), v), 4) == BitAt(v, 2)
            && BitAt(Complete(2, Rest(1, u), v), 5) == BitAt(v, 3)
            && BitAt(Complete(2, Rest(1, u), v), 6) == BitAt(v, 4)
            && BitAt(Complete(2, Rest(1, u), v), 7) == BitAt(v, 5)
    ensures && BitAt(Rest(2, v), 0) == BitAt(v, 6)
            && BitAt(Rest(2, v), 1) == BitAt(v, 7)
  {
  }

  lemma PlaceThree(u: Byte, v: Byte)
    requires v < 64
    ensures && BitAt(Complete(3, Rest(2, u), v), 0) == BitAt(Rest(2, u), 0)
            && BitAt(Complete(3, Rest(2, u), v), 1) == BitAt(Rest(2, u), 1)
            && BitAt(Complete(3, Rest(2, u), v), 2) == BitAt(v, 2)
            && BitAt(Complete(3, Rest(2, u), v), 3) == BitAt(v, 3)
    ensures && BitAt(Complete(3, Rest(2, u), v), 4) == BitAt(v, 4)
            && BitAt(Complete(3, Rest(2, u), v), 5) == BitAt(v, 5)
            && BitAt(Complete(3, Rest(2, u), v), 6) == BitAt(v, 6)
            && BitAt(Complete(3, Rest(2, u), v), 7) == BitAt(v, 7)
  {
  }

  lemma PlaceAt(place: nat, u: Byte, v: Byte, i: nat)
    requires 1 <= place <= 3 && v < 64 && i < 8
    ensures BitAt(Complete(place, Rest(place - 1, u), v), i)
         == if i < 8 - 2 * place then BitAt(Rest(place - 1, u), i) else BitAt(v, i + 2 * place - 6)
    ensures i < 6 - 2 * place ==> BitAt(Rest(place, v), i) == BitAt(v, i + 2 * place + 2)
  {
    hide BitAt, Rest, Complete;
    match place {
      case 1 => PlaceOne(u, v);
      case 2 => PlaceTwo(u, v);
      case _ => PlaceThree(u, v);
    }
  }

  lemma PlaceBits(place: nat, u: Byte, v: Byte)
    requires 1 <= place <= 3 && v < 64
    ensures ByteBits(Rest(place - 1, u))[..8-2*place] + SextetBits(v)
         == ByteBits(Complete(place, Rest(place - 1, u), v)) + ByteBits(Rest(place, v))[..6-2*place]
  {
    hide BitAt, Rest, Complete, ByteBits, SextetBits;
    var keep := 8 - 2 * place;
    var s, x, c, r := ByteBits(Rest(place - 1, u)), SextetBits(v), ByteBits(Complete(place, Rest(place - 1, u), v)), ByteBits(Rest(place, v));
    forall i | 0 <= i < 8
      ensures c[i] == if i < keep then s[i] else x[i - keep]
      ensures i < keep - 2 ==> r[i] == x[i + 8 - keep]
    {
      PlaceAt(place, u, v, i);
    }
    Regroup(s, x, c, r, keep);
  }

  lemma Regroup(s: seq<bool>, x: seq<bool>, c: seq<bool>, r: seq<bool>, keep: nat)
    requires |s| == |c| == |r| == 8 && |x| == 6 && 2 <= keep <= 8
    requires forall i | 0 <= i < 8 :: c[i] == if i < keep then s[i] else x[i - keep]
    requires forall i | 0 <= i < keep - 2 :: r[i] == x[i + 8 - keep]
    ensures s[..keep] + x == c + r[..keep-2]
  {
  }

  /** The bits of sextets are the bits of the bytes they decode to, followed by the bits that slop over. */
  lemma {:induction false} BitsAreKept(vs: seq<Byte>)
    requires AreSextets(vs)
    ensures SixBits(vs) == Bits(Whole(vs)) + SlopBits(vs)
    decreases |vs|
  {
    hide Bits, SlopBits, Whole, SextetBits;
    if vs == [] {
      NoBits();
    } else {
      var n := |vs| - 1;
      var p, v := vs[..n], vs[n];
      assert vs == p + [v];
      BitsAreKept(p);
      SlopBitsSnoc(p, v);
      var x := Complete(n % 4, Slop(p), v);
      WholeSnoc(p, v);
      BitsSnoc(Whole(p), x);
      Associate(Bits(Whole(p)), SlopBits(p), SextetBits(v));
      Associate(Bits(Whole(p)), ByteBits(x), SlopBits(vs));
    }
  }

  // The bits that slop over
  function SlopBits(vs: seq<Byte>): seq<bool> {
    ByteBits(Slop(vs))[..Over(|vs|)]
  }

  lemma SlopBitsSnoc(p: seq<Byte>, v: Byte)
    requires v < 64
    ensures SlopBits(p) + SextetBits(v)
         == (if |p| % 4 == 0 then [] else ByteBits(Complete(|p| % 4, Slop(p), v))) + SlopBits(p + [v])
  {
    hide BitAt, Rest, Complete, ByteBits, SextetBits, Whole, Slop;
    WholeSnoc(p, v);
    if |p| % 4 == 0 {
      PlaceZero(v);
      assert ByteBits(Slop(p))[..0] == [];
    } else {
      SlopIsRest(p);
      PlaceBits(|p| % 4, p[|p|-1], v);
    }
  }

  lemma SlopIsRest(p: seq<Byte>)
    requires p != []
    ensures Slop(p) == Rest((|p| - 1) % 4, p[|p|-1])
  {
  }

  lemma Associate<T>(a: seq<T>, b: seq<T>, c: seq<T>)
    ensures a + b + c == a + (b + c)
  {
  }

  lemma NoBits()
    ensures Bits([]) == [] && Whole([]) == [] && SlopBits([]) == []
  {
  }

  function Zeros(n: nat): (bits: seq<bool>)
    ensures |bits| == n
  {
    seq(n, i => false)
  }

  lemma ZeroBits(k: nat)
    requires k <= 8
    ensures ByteBits(0)[..k] == Zeros(k)
  {
  }

  /** RFC 4648, section 4, bit by bit: the sextets of data spell its bits, filled up with zeros to a multiple of six. */
  lemma SextetsSpellTheBits(bytes: seq<Byte>)
    ensures SixBits(Sextets(bytes)) == Bits(bytes) + Zeros(Over(|Sextets(bytes)|))
    ensures Over(|Sextets(bytes)|) == (if |bytes| % 3 == 0 then 0 else if |bytes| % 3 == 1 then 4 else 2)
  {
    hide ByteBits, SixBits, Bits, Whole, Slop, Sextets, Zeros;
    hide BitAt;
    BitsAreKept(Sextets(bytes));
    WholeOfSextets(bytes);
    SextetCount(bytes);
    ZeroBits(Over(|Sextets(bytes)|));
  }

  // ------------------------------------------------------------------
  // The encoding, in characters

  lemma PadsInCharacters(n: nat)
    ensures Pads((4 * n + 2) / 3) == if n % 3 == 0 then "" else if n % 3 == 1 then "==" else "="
  {
    var k, r := n / 3, n % 3;
    assert (4 * n + 2) / 3 == 4 * k + (4 * r + 2) / 3;
    Quarter(k, if r == 0 then 0 else r + 1);
  }

  /** Each sextet as the character of its number, then as many equals signs as bytes are missing in the last group of three. */
  lemma EncodeInCharacters(bytes: seq<Byte>, k: nat)
    requires k < |Encode(bytes)|
    ensures var n := |bytes|;
            && |Sextets(bytes)| == (4 * n + 2) / 3 && |Encode(bytes)| == (n + 2) / 3 * 4
            && Encode(bytes)[k] == if k < (4 * n + 2) / 3 then Digit(Sextets(bytes)[k]) else '='
  {
    hide Sextets, Pads, Symbol, Digit;
    SextetCount(bytes);
    EncodedLength(bytes);
    PadsInCharacters(|bytes|);
    if k < |Sextets(bytes)| {
      DigitIs(Sextets(bytes)[k]);
    }
  }

  function Digit(x: Byte): char
    requires x < 64
  {
    var i := x as int;
    if i < 26 then "ABCDEFGHIJKLMNOPQRSTUVWXYZ"[i]
    else if i < 52 then "abcdefghijklmnopqrstuvwxyz"[i - 26]
    else "0123456789+/"[i - 52]
  }

  lemma DigitIs(x: Byte)
    requires x < 64
    ensures Symbol(x) == Digit(x)
  {
    SixtyFour();
    TableIs(x as int);
  }
}
