/**
  The four Base64 routines, and what encoders and decoders are to each other.
*/
module Base64Codec {
  import opened Options
  import opened Base64

  // ------------------------------------------------------------------
  // Groups

  lemma SplitBits(a: Byte, b: Byte, c: Byte)
    ensures (a & 0xfc) >> 2 == S0(a)
    ensures ((a & 0x03) << 4) + ((b & 0xf0) >> 4) == ((a & 0x03) << 4) + (b >> 4) == S1(a, b)
    ensures ((b & 0x0f) << 2) + ((c & 0xc0) >> 6) == ((b & 0x0f) << 2) + (c >> 6) == S2(b, c)
    ensures c & 0x3f == S3(c)
  {
  }

  lemma JoinBits(a: Byte, b: Byte, c: Byte, d: Byte)
    requires a < 64
    ensures b < 64 ==> (a << 2) + ((b & 0x30) >> 4) == First(a, b)
    ensures c < 64 ==> ((b & 0x0f) << 4) + ((c & 0x3c) >> 2) == Second(b, c)
    ensures c < 64 && d < 64 ==> ((c & 0x03) << 6) + d == Third(c, d)
  {
  }

  method SplitGroup(a3: array<Byte>, a4: array<Byte>)
    requires a3.Length == 3 && a4.Length == 4 && a3 != a4
    modifies a4
    ensures a4[..] == [S0(a3[0]), S1(a3[0], a3[1]), S2(a3[1], a3[2]), S3(a3[2])]
  {
    hide S0, S1, S2, S3;
    SplitBits(a3[0], a3[1], a3[2]);
    a4[0] := (a3[0] & 0xfc) >> 2;
    a4[1] := ((a3[0] & 0x03) << 4) + ((a3[1] & 0xf0) >> 4);
    a4[2] := ((a3[1] & 0x0f) << 2) + ((a3[2] & 0xc0) >> 6);
    a4[3] := a3[2] & 0x3f;
  }

  // The bytes of a group of four indices: as many of them count as there were characters, less one
  method JoinGroup(a4: array<Byte>, a3: array<Byte>)
    requires a3.Length == 3 && a4.Length == 4 && a3 != a4 && a4[0] < 64
    modifies a3
    ensures a4[1] < 64 ==> a3[0] == First(a4[0], a4[1])
    ensures a4[2] < 64 ==> a3[1] == Second(a4[1], a4[2])
    ensures a4[2] < 64 && a4[3] < 64 ==> a3[2] == Third(a4[2], a4[3])
  {
    hide First, Second, Third;
    JoinBits(a4[0], a4[1], a4[2], a4[3]);
    a3[0] := (a4[0] << 2) + ((a4[1] & 0x30) >> 4);
    a3[1] := ((a4[1] & 0x0f) << 4) + ((a4[2] & 0x3c) >> 2);
    a3[2] := ((a4[2] & 0x03) << 6) + a4[3];
  }

  method AppendSymbols(ret: string, a4: array<Byte>, n: nat) returns (ret': string)
    requires n <= a4.Length && AreSextets(a4[..n])
    ensures ret' == ret + Symbols(a4[..n])
  {
    hide Symbol;
    ret' := ret;
    var j := 0;
    while j < n
      invariant j <= n && ret' == ret + Symbols(a4[..n])[..j]
    {
      assert a4[..n][j] < 64;
      ret' := ret' + [Symbol(a4[j])];
      j := j + 1;
    }
    assert Symbols(a4[..n])[..n] == Symbols(a4[..n]);
  }

  lemma SymbolsAppend(a: seq<Byte>, b: seq<Byte>)
    requires AreSextets(a) && AreSextets(b)
    ensures AreSextets(a + b) && Symbols(a + b) == Symbols(a) + Symbols(b)
  {
    hide Symbol;
  }

  // ------------------------------------------------------------------
  // The encoders

  // A full group of three
  method EncodeGroup(bytes: seq<Byte>, p: nat, a3: array<Byte>, a4: array<Byte>, ret0: string) returns (ret: string)
    requires 3 <= p <= |bytes| && p % 3 == 0
    requires a3.Length == 3 && a4.Length == 4 && a3 != a4 && a3[..] == bytes[p-3..p]
    requires ret0 == Symbols(Sextets(bytes[..p-3]))
    modifies a4
    ensures ret == Symbols(Sextets(bytes[..p]))
  {
    hide S0, S1, S2, S3, Sextets, Symbols;
    assert a3[0] == a3[..][0] && a3[1] == a3[..][1] && a3[2] == a3[..][2];
    SplitGroup(a3, a4);
    ThreeMore(bytes[..p-3], bytes[..p]);
    assert a4[..4] == a4[..];
    ret := AppendSymbols(ret0, a4, 4);
  }

  // The next byte of a group
  method StoreByte(a3: array<Byte>, i: nat, x: Byte, ghost bytes: seq<Byte>, ghost q: nat)
    requires a3.Length == 3 && i < 3 && q + i < |bytes| && a3[..i] == bytes[q..q+i] && x == bytes[q+i]
    modifies a3
    ensures a3[..i+1] == bytes[q..q+i+1]
  {
    hide *;
    a3[i] := x;
    assert a3[..i+1] == a3[..i] + [x];
  }

  method EncodeString(bytes: seq<Byte>) returns (ret: string)
    ensures ret == Encode(bytes)
  {
    hide *;
    var a3, a4 := new Byte[3], new Byte[4];
    var i, p := 0, 0;
    ghost var q: nat := 0;
    ret := "";
    NothingEncoded(bytes);
    while p < |bytes|
      invariant i < 3 && p == q + i && p <= |bytes| && q % 3 == 0
      invariant ret == Symbols(Sextets(bytes[..q]))
      invariant a3[..i] == bytes[q..p]
    {
      StoreByte(a3, i, bytes[p], bytes, q);
      i, p := i + 1, p + 1;
      if i == 3 {
        WholeGroup(a3, bytes, q);
        ret := EncodeGroup(bytes, p, a3, a4, ret);
        i, q := 0, q + 3;
      }
    }
    if i != 0 {
      ret := EncodeRest(bytes, i, a3, a4, ret);
    } else {
      GroupsEncoded(bytes);
      assert bytes[..q] == bytes;
    }
  }

  lemma NothingEncoded(bytes: seq<Byte>)
    ensures "" == Symbols(Sextets(bytes[..0]))
  {
    hide Symbol;
    assert bytes[..0] == [];
  }

  lemma GroupsEncoded(bytes: seq<Byte>)
    ensures |bytes| % 3 == 0 ==> Encode(bytes) == Symbols(Sextets(bytes))
  {
    hide Sextets, Symbols, Pads;
    PadsOf(bytes);
  }

  lemma WholeGroup(a3: array<Byte>, bytes: seq<Byte>, q: nat)
    requires a3.Length == 3 && q + 3 <= |bytes| && a3[..3] == bytes[q..q+3] && q % 3 == 0
    ensures a3[..] == bytes[q+3-3..q+3] && (q + 3) % 3 == 0 && bytes[..q+3-3] == bytes[..q]
  {
    hide *;
    assert a3[..] == a3[..3];
  }

  lemma ThreeMore(p: seq<Byte>, bytes: seq<Byte>)
    requires |p| % 3 == 0 && |bytes| == |p| + 3 && bytes[..|p|] == p
    ensures var a, b, c := bytes[|p|], bytes[|p|+1], bytes[|p|+2];
            && AreSextets([S0(a), S1(a, b), S2(b, c), S3(c)])
            && Symbols(Sextets(bytes)) == Symbols(Sextets(p)) + Symbols([S0(a), S1(a, b), S2(b, c), S3(c)])
  {
    hide S0, S1, S2, S3, Sextets, Symbols;
    SextetsThreeMore(p, bytes);
    SymbolsAppend(Sextets(p), [S0(bytes[|p|]), S1(bytes[|p|], bytes[|p|+1]), S2(bytes[|p|+1], bytes[|p|+2]), S3(bytes[|p|+2])]);
  }

  // The group of the one or two bytes that are left
  function LastGroup(p: nat, bytes: seq<Byte>): (g: seq<Byte>)
    requires |bytes| == p + 1 || |bytes| == p + 2
    ensures |g| == 4 && AreSextets(g)
  {
    var a, b := bytes[p], if |bytes| == p + 2 then bytes[p+1] else 0;
    [S0(a), S1(a, b), S2(b, 0), S3(0)]
  }

  lemma PadsAfter(n: nat)
    ensures Pads((4 * n + 2) / 3) == if n % 3 == 1 then [PAD, PAD] else if n % 3 == 2 then [PAD] else []
  {
    CountSextets(n);
  }

  lemma PadsOf(bytes: seq<Byte>)
    ensures Pads(|Sextets(bytes)|) == if |bytes| % 3 == 1 then [PAD, PAD] else if |bytes| % 3 == 2 then [PAD] else []
  {
    hide Sextets;
    SextetCount(bytes);
    PadsAfter(|bytes|);
  }

  lemma FewMore(p: seq<Byte>, bytes: seq<Byte>)
    requires |p| % 3 == 0 && |p| + 1 <= |bytes| <= |p| + 2 && bytes[..|p|] == p
    ensures var g := LastGroup(|p|, bytes)[..|bytes|-|p|+1];
            AreSextets(g) && Symbols(Sextets(bytes)) == Symbols(Sextets(p)) + Symbols(g)
  {
    hide Sextets, Symbols, LastGroup, AreSextets;
    var g := LastGroup(|p|, bytes);
    LastGroupIs(p, bytes);
    FirstSextets(g, |bytes| - |p| + 1);
    SymbolsAppend(Sextets(p), g[..|bytes|-|p|+1]);
  }

  lemma FirstSextets(g: seq<Byte>, n: nat)
    requires n <= |g| && AreSextets(g)
    ensures AreSextets(g[..n])
  {
  }

  lemma LastGroupIs(p: seq<Byte>, bytes: seq<Byte>)
    requires |p| % 3 == 0 && |p| + 1 <= |bytes| <= |p| + 2 && bytes[..|p|] == p
    ensures Sextets(bytes) == Sextets(p) + LastGroup(|p|, bytes)[..|bytes|-|p|+1]
  {
    hide S0, S1, S2, S3, Sextets;
    var g := LastGroup(|p|, bytes);
    if |bytes| == |p| + 1 {
      SextetsOneMore(p, bytes);
      assert g[..2] == [g[0], g[1]];
    } else {
      SextetsTwoMore(p, bytes);
      assert g[..3] == [g[0], g[1], g[2]];
    }
  }

  // The last one or two bytes, filled up with zeros, and the pads
  method EncodeRest(bytes: seq<Byte>, left: nat, a3: array<Byte>, a4: array<Byte>, ret0: string) returns (ret: string)
    requires 1 <= left <= 2 && left <= |bytes| && (|bytes| - left) % 3 == 0
    requires a3.Length == 3 && a4.Length == 4 && a3 != a4 && a3[..left] == bytes[|bytes|-left..]
    requires ret0 == Symbols(Sextets(bytes[..|bytes|-left]))
    modifies a3, a4
    ensures ret == Encode(bytes)
  {
    hide S0, S1, S2, S3, Sextets, Symbols;
    ghost var p := bytes[..|bytes|-left];
    assert forall k | 0 <= k < left :: a3[k] == a3[..left][k];
    var i, j := left, left;
    while j < 3
      invariant left <= j <= 3
      invariant forall k | 0 <= k < left :: a3[k] == bytes[|p| + k]
      invariant forall k | left <= k < j :: a3[k] == 0
    {
      a3[j] := 0;
      j := j + 1;
    }
    SplitGroup(a3, a4);
    assert a4[..] == LastGroup(|p|, bytes);
    assert a4[..i+1] == LastGroup(|p|, bytes)[..i+1];
    FewMore(p, bytes);
    PadsOf(bytes);
    ret := AppendSymbols(ret0, a4, i + 1);
    ghost var text := ret;
    while i < 3
      invariant left <= i <= 3
      invariant ret == text + if i == left then [] else if i == left + 1 then [PAD] else [PAD, PAD]
    {
      ret := ret + [PAD];
      i := i + 1;
    }
  }

  // Writes four characters at the end of what is written
  method PutFour(target: array<char>, at: nat, c0: char, c1: char, c2: char, c3: char)
    requires at + 4 <= target.Length
    modifies target
    ensures target[..at+4] == old(target[..at]) + [c0, c1, c2, c3]
    ensures target[at+4..] == old(target[at+4..])
  {
    target[at] := c0;
    target[at + 1] := c1;
    target[at + 2] := c2;
    target[at + 3] := c3;
  }

  lemma SymbolsFour(a: Byte, b: Byte, c: Byte, d: Byte)
    requires a < 64 && b < 64 && c < 64 && d < 64
    ensures AreSextets([a, b, c, d]) && Symbols([a, b, c, d]) == [Symbol(a), Symbol(b), Symbol(c), Symbol(d)]
  {
    hide Symbol;
  }

  /** Writes the encoding and a NUL, or fails when they do not fit. */
  method Ntop(src: seq<Byte>, target: array<char>, targsize: nat) returns (r: int)
    requires targsize <= target.Length
    modifies target
    ensures r >= 0 <==> |Encode(src)| < targsize
    ensures r >= 0 ==> r == |Encode(src)| && target[..r] == Encode(src) && target[r] == NUL
    ensures r < 0 ==> r == -1
    ensures target[targsize..] == old(target[targsize..])
  {
    hide S0, S1, S2, S3, Sextets, Symbols, Symbol;
    var input, output := new Byte[3], new Byte[4];
    var datalength, p := 0, 0;
    NothingWhole();
    EncodedLength(src);
    while 2 < |src| - p
      invariant p <= |src| && p % 3 == 0 && datalength == p / 3 * 4 && datalength <= targsize
      invariant target[..datalength] == Symbols(Sextets(src[..p]))
      invariant target[targsize..] == old(target[targsize..])
    {
      input[0], input[1], input[2] := src[p], src[p+1], src[p+2];
      SplitGroup(input, output);
      if datalength + 4 > targsize {
        return -1;
      }
      SymbolsFour(output[0], output[1], output[2], output[3]);
      ThreeMore(src[..p], src[..p+3]);
      PutFour(target, datalength, Symbol(output[0]), Symbol(output[1]), Symbol(output[2]), Symbol(output[3]));
      datalength, p := datalength + 4, p + 3;
    }
    if p != |src| {
      var ok := NtopRest(src, p, target, targsize, datalength);
      if !ok {
        return -1;
      }
      datalength := datalength + 4;
    } else {
      assert src[..p] == src;
      SextetCount(src);
      assert Encode(src) == Symbols(Sextets(src));
    }
    if datalength >= targsize {
      return -1;
    }
    target[datalength] := NUL;
    return datalength;
  }

  // The sextets of the one or two bytes that are left
  method RestSextets(src: seq<Byte>, p: nat) returns (output: array<Byte>)
    requires p + 1 <= |src| <= p + 2
    ensures fresh(output) && output.Length == 4 && output[..] == LastGroup(p, src)
  {
    hide S0, S1, S2, S3, AreSextets;
    var input := new Byte[3];
    output := new Byte[4];
    input[0], input[1], input[2] := 0, 0, 0;
    var i := 0;
    while i < |src| - p
      modifies input
      invariant i <= |src| - p
      invariant forall k | 0 <= k < i :: input[k] == src[p + k]
      invariant forall k | i <= k < 3 :: input[k] == 0
    {
      input[i] := src[p + i];
      i := i + 1;
    }
    SplitGroup(input, output);
  }

  method NtopRest(src: seq<Byte>, p: nat, target: array<char>, targsize: nat, datalength: nat) returns (ok: bool)
    requires targsize <= target.Length && p % 3 == 0 && p + 1 <= |src| <= p + 2 && datalength == p / 3 * 4 <= targsize
    requires target[..datalength] == Symbols(Sextets(src[..p]))
    modifies target
    ensures ok <==> |Encode(src)| <= targsize
    ensures ok ==> datalength + 4 == |Encode(src)| && target[..datalength+4] == Encode(src)
    ensures target[targsize..] == old(target[targsize..])
  {
    hide *;
    EncodedLength(src);
    var output := RestSextets(src, p);
    if datalength + 4 > targsize {
      return false;
    }
    LastText(src, p);
    var third := if |src| == p + 1 then PAD else Symbol(output[2]);
    PutFour(target, datalength, Symbol(output[0]), Symbol(output[1]), third, PAD);
    return true;
  }

  // The last four characters of an encoding that ends in pads
  lemma LastText(src: seq<Byte>, p: nat)
    requires p % 3 == 0 && p + 1 <= |src| <= p + 2
    ensures var g := LastGroup(p, src);
            && g[0] < 64 && g[1] < 64 && g[2] < 64
            && Encode(src) == Symbols(Sextets(src[..p])) +
                              [Symbol(g[0]), Symbol(g[1]), if |src| == p + 1 then PAD else Symbol(g[2]), PAD]
  {
    hide *;
    var g := LastGroup(p, src);
    FewMore(src[..p], src);
    PadsOf(src);
    EncodeIs(src);
    RestOfThree(|src|, p);
    FirstSymbols(g, |src| - p + 1);
    SmallSextets(g);
    Associate(Symbols(Sextets(src[..p])), Symbols(g[..|src|-p+1]), Pads(|Sextets(src)|));
  }

  lemma EncodeIs(bytes: seq<Byte>)
    ensures Encode(bytes) == Symbols(Sextets(bytes)) + Pads(|Sextets(bytes)|)
  {
  }

  lemma RestOfThree(n: nat, p: nat)
    requires p % 3 == 0 && p + 1 <= n <= p + 2
    ensures n % 3 == n - p
  {
  }

  lemma SmallSextets(g: seq<Byte>)
    requires |g| == 4 && AreSextets(g)
    ensures g[0] < 64 && g[1] < 64 && g[2] < 64
  {
  }

  lemma FirstSymbols(g: seq<Byte>, n: nat)
    requires |g| == 4 && AreSextets(g) && 2 <= n <= 3
    ensures Symbols(g[..n]) + (if n == 2 then [PAD, PAD] else [PAD]) == [Symbol(g[0]), Symbol(g[1]), if n == 2 then PAD else Symbol(g[2]), PAD]
  {
    hide Symbol;
  }

  // ------------------------------------------------------------------
  // The lenient decoder

  /** How long the run of alphabet characters at the start is. */
  function Run(s: string): (n: nat)
    ensures n <= |s|
    ensures forall i | 0 <= i < n :: InAlphabet(s[i])
    ensures n < |s| ==> !InAlphabet(s[n])
  {
    if s == [] || !InAlphabet(s[0]) then 0 else 1 + Run(s[1..])
  }

  lemma {:induction false} RunIs(s: string, n: nat)
    requires n <= |s|
    requires forall i | 0 <= i < n :: InAlphabet(s[i])
    ensures Run(s) >= n && (n == |s| || !InAlphabet(s[n]) ==> Run(s) == n)
  {
    hide InAlphabet;
    if n > 0 {
      RunIs(s[1..], n - 1);
    }
  }

  // The sextets of the leading run
  function RunValues(s: string): (vs: seq<Byte>)
    ensures |vs| == Run(s) && AreSextets(vs)
  {
    hide Sextet, InAlphabet;
    Values(s[..Run(s)])
  }

  function BufferOf(buf: array?<Byte>): seq<Byte>
    reads buf
  {
    if buf == null then [] else buf[..]
  }

  /**
    The caller's buffer holds the bytes decoded so far and is otherwise as before;
    the length follows, once there is a byte. Without a length nothing is stored.
  */
  ghost predicate Delivered(buf: array?<Byte>, before: seq<Byte>, ret: seq<Byte>, len0: Option<int>, len: Option<int>)
    reads buf
  {
    && |BufferOf(buf)| == |before|
    && (if buf != null && len0.Some? then
          && |ret| <= |before| && BufferOf(buf) == ret + before[|ret|..]
          && len == (if ret == [] then len0 else Some(|ret|))
        else BufferOf(buf) == before && len == len0)
  }

  // Appends one byte, to the caller's buffer too when there is one with a length
  method EmitByte(x: Byte, ret: seq<Byte>, buf: array?<Byte>, len: Option<int>, ghost before: seq<Byte>, ghost len0: Option<int>)
    returns (ret': seq<Byte>, len': Option<int>)
    requires Delivered(buf, before, ret, len0, len)
    requires buf != null && len0.Some? ==> |ret| < |before|
    modifies buf
    ensures ret' == ret + [x] && Delivered(buf, before, ret', len0, len')
  {
    ret', len' := ret + [x], len;
    if buf != null && len.Some? {
      assert buf[..] == ret + before[|ret|..];
      buf[|ret|] := x;
      len' := Some(|ret| + 1);
      assert buf[..] == ret + [x] + before[|ret|+1..];
    }
  }

  // The first n bytes of a group
  method Emit(a3: array<Byte>, n: nat, ret: seq<Byte>, buf: array?<Byte>, len: Option<int>, ghost before: seq<Byte>, ghost len0: Option<int>)
    returns (ret': seq<Byte>, len': Option<int>)
    requires n <= a3.Length && buf != a3 && Delivered(buf, before, ret, len0, len)
    requires buf != null && len0.Some? ==> |ret| + n <= |before|
    modifies buf
    ensures ret' == ret + a3[..n] && Delivered(buf, before, ret', len0, len')
  {
    hide Delivered;
    ret', len' := ret, len;
    var j := 0;
    while j < n
      invariant j <= n && ret' == ret + a3[..j] && Delivered(buf, before, ret', len0, len')
    {
      ret', len' := EmitByte(a3[j], ret', buf, len', before, len0);
      j := j + 1;
    }
  }

  // base64_chars.find on the first n characters of a group; an empty slot holds a NUL, which is not found
  method Lookup(c4: array<char>, a4: array<Byte>)
    requires c4.Length == 4 && a4.Length == 4 && (c4 as object) != a4
    modifies a4
    ensures a4[..] == Values(c4[..])
  {
    hide Sextet;
    var i := 0;
    while i < 4
      invariant i <= 4 && forall k | 0 <= k < i :: a4[k] == Sextet(c4[k])
    {
      a4[i] := Sextet(c4[i]);
      i := i + 1;
    }
  }

  // The bytes of a group of n characters
  lemma BytesOfGroup(p: seq<Byte>, g: seq<Byte>, n: nat, bytes: seq<Byte>)
    requires |p| % 4 == 0 && |g| == 4 && 1 <= n <= 4 && |bytes| == 3
    requires forall i | 0 <= i < n :: g[i] < 64
    requires n > 1 ==> bytes[0] == First(g[0], g[1])
    requires n > 2 ==> bytes[1] == Second(g[1], g[2])
    requires n > 3 ==> bytes[2] == Third(g[2], g[3])
    ensures Whole(p + g[..n]) == Whole(p) + bytes[..n-1]
  {
    hide First, Second, Third, Whole;
    if n == 1 {
      assert g[..1] == [g[0]];
      WholeSnoc(p, g[0]);
    } else if n == 2 {
      assert g[..2] == [g[0], g[1]] && bytes[..1] == [bytes[0]];
      WholeTwo(p, g[0], g[1]);
    } else if n == 3 {
      assert g[..3] == [g[0], g[1], g[2]] && bytes[..2] == [bytes[0], bytes[1]];
      WholeThree(p, g[0], g[1], g[2]);
    } else {
      assert g[..4] == [g[0], g[1], g[2], g[3]] && bytes[..3] == [bytes[0], bytes[1], bytes[2]];
      WholeFour(p, g[0], g[1], g[2], g[3]);
    }
  }

  // Decodes the n characters of a group
  method DecodeGroup(c4: array<char>, n: nat, a4: array<Byte>, a3: array<Byte>, ghost s: string, ghost p: nat)
    requires c4.Length == 4 && a4.Length == 4 && a3.Length == 3 && a3 != a4 && (c4 as object) != a4 && 1 <= n <= 4
    requires p % 4 == 0 && p + n <= Run(s) && c4[..n] == s[p..p+n]
    modifies a4, a3
    ensures Whole(Values(s[..p+n])) == Whole(Values(s[..p])) + a3[..n-1]
  {
    hide First, Second, Third, Whole, InAlphabet, Sextet;
    Lookup(c4, a4);
    ghost var g := a4[..];
    GroupValues(s, p, n, c4[..], g);
    JoinGroup(a4, a3);
    BytesOfGroup(Values(s[..p]), g, n, a3[..]);
    assert a3[..][..n-1] == a3[..n-1];
  }

  lemma GroupValues(s: string, p: nat, n: nat, c: string, g: seq<Byte>)
    requires 1 <= n <= 4 == |c| && p + n <= Run(s) && c[..n] == s[p..p+n] && g == Values(c)
    ensures forall k | 0 <= k < n :: g[k] < 64
    ensures Values(s[..p+n]) == Values(s[..p]) + g[..n]
  {
    hide InAlphabet, Sextet;
    assert forall k | 0 <= k < n :: c[k] == c[..n][k] == s[p..p+n][k] == s[p + k];
  }

  // Decodes a group and appends its bytes
  method DecodeNext(c4: array<char>, n: nat, a4: array<Byte>, a3: array<Byte>, ret: seq<Byte>, buf: array?<Byte>, len: Option<int>,
                    ghost s: string, ghost p: nat, ghost before: seq<Byte>, ghost len0: Option<int>)
    returns (ret': seq<Byte>, len': Option<int>)
    requires c4.Length == 4 && a4.Length == 4 && a3.Length == 3 && a3 != a4 && (c4 as object) != a4 && 1 <= n <= 4
    requires p % 4 == 0 && p + n <= Run(s) && c4[..n] == s[p..p+n]
    requires ret == Whole(Values(s[..p])) && Delivered(buf, before, ret, len0, len)
    requires buf != null && len0.Some? ==> 3 * Run(s) / 4 <= |before|
    requires buf != a4 && buf != a3
    modifies a4, a3, buf
    ensures ret' == Whole(Values(s[..p+n])) && Delivered(buf, before, ret', len0, len')
  {
    hide Whole, Values, InAlphabet, BufferOf, Delivered;
    DecodeGroup(c4, n, a4, a3, s, p);
    SizeSoFar(s, p + n, n);
    ret', len' := Emit(a3, n - 1, ret, buf, len, before, len0);
  }

  // Takes the characters of the run, group by group, and leaves the last group unfinished
  method DecodeRun(s: string, c4: array<char>, a4: array<Byte>, a3: array<Byte>, buf: array?<Byte>, len0: Option<int>, ghost before: seq<Byte>)
    returns (i: nat, ghost q: nat, ret: seq<Byte>, len: Option<int>)
    requires c4.Length == 4 && a4.Length == 4 && a3.Length == 3 && a3 != a4 && (c4 as object) != a4
    requires buf != a4 && buf != a3 && (buf as object?) != c4 && (c4 as object) != a3
    requires before == BufferOf(buf) && (buf != null && len0.Some? ==> 3 * Run(s) / 4 <= |before|)
    modifies buf, c4, a4, a3
    ensures i < 4 && q % 4 == 0 && q + i == Run(s) && c4[..i] == s[q..q+i]
    ensures ret == Whole(Values(s[..q])) && Delivered(buf, before, ret, len0, len)
  {
    hide *;
    i, q, ret, len := 0, 0, [], len0;
    var p := 0;
    NothingYet(buf, before, len0);
    while p < |s| && s[p] != PAD && IsBase64(s[p])
      invariant i < 4 && p == q + i && p <= Run(s) && q % 4 == 0
      invariant c4[..i] == s[q..p]
      invariant ret == Whole(Values(s[..q])) && Delivered(buf, before, ret, len0, len)
    {
      RunGoesOn(s, p);
      Store(c4, i, s[p], s, q);
      i, p := i + 1, p + 1;
      if i == 4 {
        ret, len := DecodeNext(c4, 4, a4, a3, ret, buf, len, s, q, before, len0);
        i, q := 0, q + 4;
      }
    }
    RunEnds(s, p);
  }

  // The next character of a group
  method Store(c4: array<char>, i: nat, c: char, ghost s: string, ghost q: nat)
    requires c4.Length == 4 && i < 4 && q + i < |s| && c4[..i] == s[q..q+i] && c == s[q+i]
    modifies c4
    ensures c4[..i+1] == s[q..q+i+1]
  {
    c4[i] := c;
    assert c4[..i+1] == c4[..i] + [c];
  }

  /**
    Decodes the leading run of alphabet characters, whatever comes after it. The
    buffer gets the same bytes; the length is set only when there is a byte.
  */
  method DecodeString(s: string, buf: array?<Byte>, len0: Option<int>) returns (ret: seq<Byte>, len: Option<int>)
    requires buf != null && len0.Some? ==> 3 * Run(s) / 4 <= buf.Length
    modifies buf
    ensures ret == Whole(RunValues(s)) && |ret| == 3 * Run(s) / 4
    ensures Delivered(buf, old(BufferOf(buf)), ret, len0, len)
  {
    hide *;
    var c4, a4, a3 := new char[4], new Byte[4], new Byte[3];
    ghost var before := BufferOf(buf);
    NothingYet(buf, before, len0);
    var i;
    ghost var q;
    i, q, ret, len := DecodeRun(s, c4, a4, a3, buf, len0, before);
    WholeCount(RunValues(s));
    RunEnds(s, Run(s));
    if i != 0 {
      ClearRest(c4, i);
      ret, len := DecodeNext(c4, i, a4, a3, ret, buf, len, s, q, before, len0);
    }
  }

  // Empty slots of a group hold NULs
  method ClearRest(c4: array<char>, i: nat)
    requires i <= c4.Length
    modifies c4
    ensures c4[..i] == old(c4[..i]) && forall k | i <= k < c4.Length :: c4[k] == NUL
  {
    var j := i;
    while j < c4.Length
      invariant i <= j <= c4.Length && c4[..i] == old(c4[..i])
      invariant forall k | i <= k < j :: c4[k] == NUL
    {
      c4[j] := NUL;
      j := j + 1;
    }
  }

  lemma NothingYet(buf: array?<Byte>, before: seq<Byte>, len0: Option<int>)
    requires before == BufferOf(buf)
    ensures Delivered(buf, before, [], len0, len0)
    ensures Whole(Values([])) == []
    ensures buf != null ==> |before| == buf.Length
  {
  }

  lemma RunGoesOn(s: string, p: nat)
    requires p < |s| && p <= Run(s) && IsBase64(s[p])
    ensures p + 1 <= Run(s) && InAlphabet(s[p])
  {
    AlphabetIsBase64(s[p]);
  }

  lemma RunEnds(s: string, p: nat)
    requires p <= Run(s) && (p == Run(s) || s[p] == PAD || !IsBase64(s[p]))
    ensures p == Run(s) && RunValues(s) == Values(s[..p])
  {
    hide InAlphabet, IsBase64, Sextet;
    if p < |s| {
      AlphabetIsBase64(s[p]);
    }
  }

  lemma SizeSoFar(s: string, p: nat, i: nat)
    requires 1 <= i <= 4 && i <= p <= Run(s) && (p - i) % 4 == 0
    ensures |Whole(Values(s[..p-i]))| + i - 1 <= 3 * Run(s) / 4
  {
    hide Whole, Values;
    WholeCount(Values(s[..p-i]));
  }

  // ------------------------------------------------------------------
  // The strict decoder

  /** The text without white space. */
  function Strip(t: string): string
    decreases |t|
  {
    if t == "" then ""
    else Strip(t[..|t|-1]) + if IsSpace(t[|t|-1]) then "" else [t[|t|-1]]
  }

  lemma {:induction false} StripAppend(a: string, b: string)
    ensures Strip(a + b) == Strip(a) + Strip(b)
    decreases |b|
  {
    hide IsSpace;
    if b == "" {
      assert a + b == a;
    } else {
      StripAppend(a, b[..|b|-1]);
      assert (a + b)[..|a + b|-1] == a + b[..|b|-1];
    }
  }

  lemma StripSnoc(a: string, c: char)
    ensures Strip(a + [c]) == Strip(a) + if IsSpace(c) then "" else [c]
  {
    hide IsSpace;
    assert (a + [c])[..|a|] == a;
  }

  /** White space is the space, the tab, the two line breaks and the vertical tab and form feed between them; nothing else is left out. */
  lemma StripInCharacters(a: string, c: char)
    ensures Strip("") == ""
    ensures Strip(a + [c]) == if c in {' ', '\t', '\n', '\U{0B}', '\U{0C}', '\r'} then Strip(a) else Strip(a) + [c]
  {
    StripSnoc(a, c);
    SpaceInCharacters(c);
    assert Strip(a) + "" == Strip(a);
  }

  lemma SpaceInCharacters(c: char)
    ensures IsSpace(c) <==> c in {' ', '\t', '\n', '\U{0B}', '\U{0C}', '\r'}
  {
    assert '\t' <= c <= '\r' <==> 9 <= c as int <= 13;
  }

  // The first NUL ends a C string
  function TextEnd(src: string, p: nat): (e: nat)
    requires p <= |src| && NUL in src[p..]
    ensures p <= e < |src| && src[e] == NUL && forall k | p <= k < e :: src[k] != NUL
    decreases |src| - p
  {
    if src[p] == NUL then p else TextEnd(src, p + 1)
  }

  function CText(src: string): string
    requires NUL in src
  {
    assert src[0..] == src;
    src[..TextEnd(src, 0)]
  }

  /** A run of characters and the pads it needs, and nothing else. */
  predicate WellFormed(s: string) {
    Run(s) % 4 != 1 && s[Run(s)..] == Pads(Run(s))
  }

  // How much room decoding n characters takes: the byte that the last one begins counts too
  function Room(n: nat): nat {
    if n % 4 == 0 then 3 * n / 4 else 3 * n / 4 + 1
  }

  /** What the strict decoder makes of a text: all or nothing. Only with a target are room and slop looked at. */
  function Strict(s: string, room: Option<nat>): Option<seq<Byte>> {
    if !WellFormed(s) || (room.Some? && (room.value < Room(Run(s)) || Slop(RunValues(s)) != 0)) then None
    else Some(Whole(RunValues(s)))
  }

  lemma ValuesOfSymbols(vs: seq<Byte>, rest: string)
    requires AreSextets(vs) && (rest == "" || !InAlphabet(rest[0]))
    ensures Run(Symbols(vs) + rest) == |vs| && RunValues(Symbols(vs) + rest) == vs
    ensures (Symbols(vs) + rest)[|vs|..] == rest
  {
    hide InAlphabet, Symbol, Sextet, Run;
    var s := Symbols(vs) + rest;
    forall i | 0 <= i < |vs|
      ensures InAlphabet(s[i]) && Sextet(s[i]) == vs[i]
    {
      SextetOfSymbol(vs[i]);
    }
    RunIs(s, |vs|);
  }

  lemma SymbolsOfValues(s: string)
    ensures Symbols(RunValues(s)) == s[..Run(s)]
  {
    hide InAlphabet, Sextet, Symbol, Run;
  }

  lemma PadIsNoSymbol(n: nat)
    ensures !InAlphabet(PAD)
    ensures Pads(n) == "" || !InAlphabet(Pads(n)[0])
  {
    hide InAlphabet;
    AlphabetIsBase64(PAD);
  }

  lemma EncodedRun(bytes: seq<Byte>)
    ensures var vs, s := Sextets(bytes), Encode(bytes);
            Run(s) == |vs| && RunValues(s) == vs && s[|vs|..] == Pads(|vs|)
  {
    hide InAlphabet, Sextets, Symbols, Run, RunValues, Pads, AreSextets;
    PadIsNoSymbol(|Sextets(bytes)|);
    ValuesOfSymbols(Sextets(bytes), Pads(|Sextets(bytes)|));
  }

  lemma WellFormedIs(s: string, k: nat)
    requires Run(s) == k && k % 4 != 1 && s[k..] == Pads(k)
    ensures WellFormed(s)
  {
  }

  lemma EncodedIsWellFormed(bytes: seq<Byte>)
    ensures WellFormed(Encode(bytes)) && RunValues(Encode(bytes)) == Sextets(bytes)
    ensures Room(Run(Encode(bytes))) == if |bytes| % 3 == 0 then |bytes| else |bytes| + 1
  {
    hide *;
    EncodedRun(bytes);
    SextetRoom(bytes);
    WellFormedIs(Encode(bytes), |Sextets(bytes)|);
  }

  lemma SextetRoom(bytes: seq<Byte>)
    ensures |Sextets(bytes)| % 4 != 1
    ensures Room(|Sextets(bytes)|) == if |bytes| % 3 == 0 then |bytes| else |bytes| + 1
  {
    hide *;
    SextetCount(bytes);
    RoomOf(|bytes|);
  }

  lemma RoomOf(n: nat)
    ensures Room((4 * n + 2) / 3) == if n % 3 == 0 then n else n + 1
    ensures (4 * n + 2) / 3 % 4 != 1
  {
    var k, r := n / 3, n % 3;
    assert (4 * n + 2) / 3 == 4 * k + (4 * r + 2) / 3;
    Quarter(k, (4 * r + 2) / 3);
  }

  /**
    Canonicity and exact capacity at once: with a target of a given size the
    strict decoder yields some bytes exactly when the text, white space removed,
    is their encoding and the target has the room.
  */
  lemma StrictIsCanonical(s: string, targsize: nat, bytes: seq<Byte>)
    ensures Strict(s, Some(targsize)) == Some(bytes)
       <==> s == Encode(bytes) && (if |bytes| % 3 == 0 then |bytes| else |bytes| + 1) <= targsize
  {
    hide Run, RunValues, Sextets, Symbols, Whole, Slop, Pads, Room, AreSextets;
    EncodedIsWellFormed(bytes);
    WholeOfSextets(bytes);
    var vs := RunValues(s);
    if WellFormed(s) && Slop(vs) == 0 {
      SextetsOfWhole(vs);
      SymbolsOfValues(s);
      assert s == s[..Run(s)] + s[Run(s)..];
    }
  }

  /** Without a target the text of an encoding is told from other texts for the same bytes by its slop bits alone. */
  lemma WithoutTargetIff(s: string, bytes: seq<Byte>)
    ensures s == Encode(bytes) <==> Strict(s, None) == Some(bytes) && Slop(RunValues(s)) == 0
  {
    hide *;
    var n := Room(Run(s)) + |bytes| + 1;
    StrictIsCanonical(s, n, bytes);
    StrictRooms(s, n);
  }

  // The two decoders differ in the room and in the check of the slop bits
  lemma StrictRooms(s: string, room: nat)
    requires Room(Run(s)) <= room
    ensures Strict(s, Some(room)) == if Slop(RunValues(s)) == 0 then Strict(s, None) else None
  {
    hide WellFormed, RunValues, Whole, Slop, Run, Room;
  }

  lemma SymbolsQR()
    ensures Symbol(16) == 'Q' && Symbol(17) == 'R'
  {
    TableIs(16);
    TableIs(17);
  }

  lemma TwoSymbols(v: Byte)
    requires v < 64
    ensures var s := Symbols([16, v]) + "==";
            && WellFormed(s) && Run(s) == 2 && Whole(RunValues(s)) == [First(16, v)] && Slop(RunValues(s)) == Rest(1, v)
  {
    hide Run, RunValues, Symbols, First, Rest;
    PadIsNoSymbol(0);
    ValuesOfSymbols([16, v], "==");
    WholeTwo([], 16, v);
    assert [] + [16, v] == [16, v];
  }

  /** Without a target the slop bits go unchecked, so a text that is no encoding decodes all the same. */
  lemma WithoutTargetSlopPasses()
    ensures Strict("QR==", None) == Some([0x41]) && Strict("QR==", Some(2)) == None
    ensures Strict("QQ==", None) == Strict("QQ==", Some(2)) == Some([0x41])
  {
    hide Run, RunValues, WellFormed, Whole, Slop;
    SymbolsQR();
    TwoSymbols(16);
    TwoSymbols(17);
    assert Symbols([16, 16]) + "==" == "QQ==" && Symbols([16, 17]) + "==" == "QR==";
  }

  // Whole bytes, and in the next place what slops over
  ghost predicate InPlace(bytes: seq<Byte>, vs: seq<Byte>, tarindex: nat) {
    && tarindex <= |bytes| && bytes[..tarindex] == Whole(vs)
    && (|vs| % 4 != 0 ==> tarindex < |bytes| && bytes[tarindex] == Slop(vs))
  }

  /** The sextets read so far are in the target. */
  ghost predicate Progress(target: array?<Byte>, targsize: nat, vs: seq<Byte>, state: nat, tarindex: nat)
    reads target
  {
    && AreSextets(vs) && state == |vs| % 4 && tarindex == 3 * |vs| / 4
    && (target != null ==> Room(|vs|) <= targsize <= target.Length && InPlace(target[..], vs, tarindex))
  }

  lemma NextPlace(n: nat)
    ensures 3 * (n + 1) / 4 == 3 * n / 4 + if n % 4 == 0 then 0 else 1
    ensures (n + 1) % 4 == if n % 4 == 3 then 0 else n % 4 + 1
    ensures Room(n + 1) == if n % 4 == 1 || n % 4 == 2 then 3 * n / 4 + 2 else 3 * n / 4 + 1
  {
    NextInGroup(n);
  }

  lemma Places(slop: Byte, x: Byte)
    ensures Rest(0, x) == x << 2 && Rest(1, x) == (x & 0x0f) << 4 && Rest(2, x) == (x & 0x03) << 6
    ensures Complete(1, slop, x) == slop | (x >> 4) && Complete(2, slop, x) == slop | (x >> 2) && Complete(3, slop, x) == slop | x
  {
  }

  // Puts a byte at an index, if it is inside
  method Put(target: array<Byte>, targsize: nat, i: nat, x: Byte) returns (ok: bool)
    requires targsize <= target.Length
    modifies target
    ensures ok <==> i < targsize
    ensures ok ==> target[..i] == old(target[..i]) && target[i] == x
    ensures target[targsize..] == old(target[targsize..])
  {
    if i >= targsize {
      return false;
    }
    target[i] := x;
    return true;
  }

  // Finishes the byte at an index
  method Finish(target: array<Byte>, targsize: nat, i: nat, high: Byte) returns (ok: bool)
    requires targsize <= target.Length
    modifies target
    ensures ok <==> i < targsize
    ensures ok ==> target[..i+1] == old(target[..i]) + [old(target[i]) | high]
    ensures target[targsize..] == old(target[targsize..])
  {
    if i >= targsize {
      return false;
    }
    target[i] := target[i] | high;
    return true;
  }

  // Finishes the byte at an index and begins the next, if both are inside
  method FinishAndBegin(target: array<Byte>, targsize: nat, i: nat, high: Byte, low: Byte) returns (ok: bool)
    requires targsize <= target.Length
    modifies target
    ensures ok <==> i + 1 < targsize
    ensures ok ==> target[..i+1] == old(target[..i]) + [old(target[i]) | high] && target[i+1] == low
    ensures target[targsize..] == old(target[targsize..])
  {
    if i + 1 >= targsize {
      return false;
    }
    target[i] := target[i] | high;
    target[i+1] := low;
    return true;
  }

  lemma PutIsInPlace(b: seq<Byte>, b': seq<Byte>, vs: seq<Byte>, x: Byte, i: nat)
    requires |vs| % 4 == 0 && InPlace(b, vs, i) && i < |b| == |b'|
    requires b'[..i] == b[..i] && b'[i] == Rest(0, x)
    ensures InPlace(b', vs + [x], i)
  {
    hide Whole, Slop, Rest, Complete;
    WholeSnoc(vs, x);
  }

  lemma FinishIsInPlace(b: seq<Byte>, b': seq<Byte>, vs: seq<Byte>, x: Byte, i: nat)
    requires |vs| % 4 != 0 && InPlace(b, vs, i) && i < |b| == |b'|
    requires b'[..i+1] == b[..i] + [Complete(|vs| % 4, b[i], x)]
    requires |vs| % 4 != 3 ==> i + 1 < |b| && b'[i+1] == Rest(|vs| % 4, x)
    ensures InPlace(b', vs + [x], i + 1)
  {
    hide Whole, Slop, Rest, Complete;
    WholeSnoc(vs, x);
  }

  lemma ByteBegun(b: seq<Byte>, vs: seq<Byte>, i: nat)
    requires InPlace(b, vs, i)
    ensures |vs| % 4 != 0 ==> i < |b|
  {
  }

  // One sextet into the target; fails when it does not fit
  method PlaceSextet(x: Byte, target: array<Byte>, targsize: nat, state: nat, tarindex: nat, ghost vs: seq<Byte>) returns (ok: bool)
    requires Progress(target, targsize, vs, state, tarindex) && x < 64
    modifies target
    ensures ok <==> Room(|vs| + 1) <= targsize
    ensures ok ==> InPlace(target[..], vs + [x], if state == 0 then tarindex else tarindex + 1)
    ensures target[targsize..] == old(target[targsize..])
  {
    hide Whole, Slop, Rest, Complete, Room, AreSextets, InPlace;
    ghost var b := target[..];
    NextPlace(|vs|);
    ByteBegun(b, vs, tarindex);
    Places(if state == 0 then 0 else b[tarindex], x);
    match state {
      case 0 =>
        ok := Put(target, targsize, tarindex, x << 2);
        if ok { PutIsInPlace(b, target[..], vs, x, tarindex); }
      case 1 =>
        ok := FinishAndBegin(target, targsize, tarindex, x >> 4, (x & 0x0f) << 4);
        if ok { FinishIsInPlace(b, target[..], vs, x, tarindex); }
      case 2 =>
        ok := FinishAndBegin(target, targsize, tarindex, x >> 2, (x & 0x03) << 6);
        if ok { FinishIsInPlace(b, target[..], vs, x, tarindex); }
      case _ =>
        ok := Finish(target, targsize, tarindex, x);
        if ok { FinishIsInPlace(b, target[..], vs, x, tarindex); }
    }
  }

  // One sextet more
  method TakeSextet(x: Byte, target: array?<Byte>, targsize: nat, state: nat, tarindex: nat, ghost vs: seq<Byte>)
    returns (ok: bool, state': nat, tarindex': nat)
    requires Progress(target, targsize, vs, state, tarindex) && x < 64
    modifies target
    ensures ok <==> target == null || Room(|vs| + 1) <= targsize
    ensures ok ==> Progress(target, targsize, vs + [x], state', tarindex')
    ensures target != null ==> target[targsize..] == old(target[targsize..])
  {
    hide Whole, Slop, Room;
    NextPlace(|vs|);
    ok, state', tarindex' := true, state, tarindex;
    if target != null {
      ok := PlaceSextet(x, target, targsize, state, tarindex, vs);
      if !ok {
        return;
      }
    }
    if state != 0 {
      tarindex' := tarindex + 1;
    }
    state' := if state == 3 then 0 else state + 1;
  }

  // ------------------------------------------------------------------
  // The strict decoder's way through a text

  ghost predicate IsText(src: string, t: string) {
    |t| < |src| && src[|t|] == NUL && (forall k | 0 <= k < |t| :: src[k] == t[k]) && NUL !in t
  }

  lemma TextIs(src: string)
    requires NUL in src
    ensures IsText(src, CText(src))
  {
    assert src[0..] == src;
  }

  // The stripped text, split at a character that is no space
  lemma StripSplit(t: string, p: nat)
    requires p < |t| && !IsSpace(t[p])
    ensures Strip(t) == Strip(t[..p]) + ([t[p]] + Strip(t[p+1..]))
  {
    hide IsSpace, Strip;
    assert t == t[..p] + [t[p]] + t[p+1..];
    StripAppend(t[..p] + [t[p]], t[p+1..]);
    StripSnoc(t[..p], t[p]);
    assert Strip(t[..p]) + [t[p]] + Strip(t[p+1..]) == Strip(t[..p]) + ([t[p]] + Strip(t[p+1..]));
  }

  lemma PadsAre(n: nat)
    ensures Pads(n) == "" || Pads(n)[0] == PAD
    ensures Pads(n) == "" <==> n % 4 < 2
    ensures n % 4 == 2 ==> Pads(n) == [PAD, PAD]
    ensures n % 4 == 3 ==> Pads(n) == [PAD]
  {
  }

  lemma AtStop(t: string, p: nat, vs: seq<Byte>)
    requires p < |t| && !IsSpace(t[p]) && !InAlphabet(t[p]) && AreSextets(vs) && Strip(t[..p]) == Symbols(vs)
    ensures var s := Strip(t); Run(s) == |vs| && RunValues(s) == vs && s[|vs|..] == [t[p]] + Strip(t[p+1..])
  {
    hide *;
    StripSplit(t, p);
    ValuesOfSymbols(vs, [t[p]] + Strip(t[p+1..]));
  }

  lemma BadCharacter(t: string, p: nat, vs: seq<Byte>)
    requires p < |t| && !IsSpace(t[p]) && !InAlphabet(t[p]) && t[p] != PAD && AreSextets(vs) && Strip(t[..p]) == Symbols(vs)
    ensures !WellFormed(Strip(t))
  {
    hide IsSpace, InAlphabet, AreSextets, Strip, Symbols, Run, RunValues, Pads;
    AtStop(t, p, vs);
    PadsAre(|vs|);
    assert Strip(t)[|vs|..][0] == t[p];
  }

  lemma OneSextetMore(t: string, p: nat, vs: seq<Byte>)
    requires p < |t| && InAlphabet(t[p]) && AreSextets(vs) && Strip(t[..p]) == Symbols(vs)
    ensures AreSextets(vs + [Sextet(t[p])]) && Strip(t[..p+1]) == Symbols(vs + [Sextet(t[p])])
    ensures Run(Strip(t)) >= |vs| + 1
  {
    hide Strip, InAlphabet, Sextet, Symbol, Run;
    AlphabetIsBase64(t[p]);
    assert t[..p+1] == t[..p] + [t[p]];
    StripSnoc(t[..p], t[p]);
    assert t == t[..p+1] + t[p+1..];
    StripAppend(t[..p+1], t[p+1..]);
    var s := Strip(t);
    forall i | 0 <= i < |vs| + 1
      ensures InAlphabet(s[i])
    {
      SextetOfSymbol((vs + [Sextet(t[p])])[i]);
    }
    RunIs(s, |vs| + 1);
  }

  lemma RoomGrows(m: nat, n: nat)
    requires m <= n
    ensures Room(m) <= Room(n)
  {
  }

  lemma SpaceStep(t: string, p: nat)
    requires p < |t| && IsSpace(t[p])
    ensures Strip(t[..p+1]) == Strip(t[..p])
  {
    hide IsSpace, Strip;
    assert t[..p+1] == t[..p] + [t[p]];
    StripSnoc(t[..p], t[p]);
  }

  lemma AtEnd(t: string, vs: seq<Byte>)
    requires AreSextets(vs) && Strip(t) == Symbols(vs)
    ensures var s := Strip(t); Run(s) == |vs| && RunValues(s) == vs && s[|vs|..] == ""
  {
    hide *;
    assert Symbols(vs) + "" == Symbols(vs);
    ValuesOfSymbols(vs, "");
  }

  // Skips white space
  method SkipSpaces(src: string, p: nat, ghost t: string) returns (q: nat)
    requires IsText(src, t) && p <= |t|
    ensures p <= q <= |t| && Strip(t[p..]) == Strip(t[q..])
    ensures q < |t| ==> !IsSpace(src[q])
  {
    hide Strip, IsSpace;
    q := p;
    while src[q] != NUL && IsSpace(src[q])
      invariant p <= q <= |t| && Strip(t[p..]) == Strip(t[q..])
      decreases |t| - q
    {
      assert t[q..] == [t[q]] + t[q+1..];
      StripAppend([t[q]], t[q+1..]);
      StripOne(t[q]);
      q := q + 1;
    }
  }

  lemma StripOne(c: char)
    ensures Strip([c]) == if IsSpace(c) then "" else [c]
  {
    StripSnoc("", c);
    assert "" + [c] == [c];
  }

  lemma StripFirst(t: string, q: nat)
    requires q <= |t| && (q < |t| ==> !IsSpace(t[q]))
    ensures Strip(t[q..]) == if q == |t| then "" else [t[q]] + Strip(t[q+1..])
  {
    hide Strip, IsSpace;
    if q < |t| {
      assert t[q..] == [t[q]] + t[q+1..];
      StripAppend([t[q]], t[q+1..]);
      StripOne(t[q]);
    } else {
      assert t[q..] == "";
      StripNothing();
    }
  }

  lemma StripNothing()
    ensures Strip("") == ""
  {
  }

  // Is there anything but white space?
  method OnlySpaces(src: string, p: nat, ghost t: string) returns (only: bool)
    requires IsText(src, t) && p <= |t|
    ensures only <==> Strip(t[p..]) == ""
  {
    hide Strip, IsSpace;
    var q := SkipSpaces(src, p, t);
    StripFirst(t, q);
    return src[q] == NUL;
  }

  // The pads and what follows them, after the first pad at p
  method CheckPads(src: string, p: nat, state: nat, ghost t: string, ghost n: nat) returns (ok: bool)
    requires IsText(src, t) && p < |t| && state == n % 4
    ensures ok <==> n % 4 != 1 && [PAD] + Strip(t[p+1..]) == Pads(n)
  {
    hide Strip, IsSpace, Pads;
    PadsAre(n);
    match state {
      case 2 =>
        var q := SkipSpaces(src, p + 1, t);
        StripFirst(t, q);
        if src[q] != PAD {
          SecondPad(t[p+1..]);
          return false;
        }
        ok := OnlySpaces(src, q + 1, t);
        assert ([PAD] + ([PAD] + Strip(t[q+1..])))[2..] == Strip(t[q+1..]);
      case 3 =>
        ok := OnlySpaces(src, p + 1, t);
        assert ([PAD] + Strip(t[p+1..]))[1..] == Strip(t[p+1..]);
      case _ =>
        return false;
    }
  }

  lemma SecondPad(rest: string)
    ensures [PAD] + Strip(rest) == [PAD, PAD] ==> Strip(rest) == [PAD]
  {
    hide Strip;
    assert ([PAD] + Strip(rest))[1..] == Strip(rest);
  }

  // Whether nothing slopped over, as far as there is a target to tell
  method CheckSlop(target: array?<Byte>, targsize: nat, state: nat, tarindex: nat, ghost vs: seq<Byte>) returns (ok: bool)
    requires Progress(target, targsize, vs, state, tarindex) && state != 0
    ensures ok <==> target == null || Slop(vs) == 0
  {
    hide Slop, Whole;
    return target == null || target[tarindex] == 0;
  }

  // What the text so far decodes to, once it is known to end well
  lemma Outcome(t: string, target: array?<Byte>, targsize: nat, vs: seq<Byte>, state: nat, tarindex: nat)
    requires Progress(target, targsize, vs, state, tarindex)
    requires Run(Strip(t)) == |vs| && RunValues(Strip(t)) == vs && WellFormed(Strip(t)) && (target == null || Slop(vs) == 0)
    ensures Decoded(Strict(Strip(t), if target == null then None else Some(targsize)), target, tarindex)
  {
    hide Strip, Run, RunValues, WellFormed, Slop, Whole, Room, AreSextets;
    WholeCount(vs);
  }

  ghost predicate Decoded(result: Option<seq<Byte>>, target: array?<Byte>, r: int)
    reads target
  {
    match result
    case None => r == -1
    case Some(bytes) => r == |bytes| && (target != null ==> r <= target.Length && target[..r] == bytes)
  }

  // Reads characters up to the first pad, or up to the end
  method TakeCharacters(src: string, target: array?<Byte>, targsize: nat, ghost t: string)
    returns (ok: bool, p: nat, state: nat, tarindex: nat, ghost vs: seq<Byte>)
    requires IsText(src, t) && (target != null ==> targsize <= target.Length)
    modifies target
    ensures target != null ==> target[targsize..] == old(target[targsize..])
    ensures !ok ==> Strict(Strip(t), if target == null then None else Some(targsize)) == None
    ensures ok ==> p <= |t| && Progress(target, targsize, vs, state, tarindex) && Strip(t[..p]) == Symbols(vs)
    ensures ok ==> p == |t| || src[p] == PAD
  {
    hide InAlphabet, IsSpace, Strip, Symbols, Whole, Slop, WellFormed, Run, RunValues, Room, AreSextets, Sextet, InPlace;
    ok, p, state, tarindex, vs := true, 0, 0, 0, [];
    StartsEmpty(target, targsize);
    assert t[..0] == "";
    while src[p] != NUL
      invariant p <= |t| && Progress(target, targsize, vs, state, tarindex) && Strip(t[..p]) == Symbols(vs)
      invariant target != null ==> target[targsize..] == old(target[targsize..])
      decreases |t| - p
    {
      var ch := src[p];
      if IsSpace(ch) {
        SpaceStep(t, p);
        p := p + 1;
        continue;
      }
      if ch == PAD {
        return;
      }
      if !InAlphabet(ch) {
        BadCharacter(t, p, vs);
        ok := false;
        return;
      }
      OneSextetMore(t, p, vs);
      RoomGrows(|vs| + 1, Run(Strip(t)));
      ok, state, tarindex := TakeSextet(Sextet(ch), target, targsize, state, tarindex, vs);
      if !ok {
        return;
      }
      vs := vs + [Sextet(ch)];
      p := p + 1;
    }
  }

  lemma StartsEmpty(target: array?<Byte>, targsize: nat)
    requires target != null ==> targsize <= target.Length
    ensures Progress(target, targsize, [], 0, 0)
    ensures Strip("") == Symbols([])
  {
  }

  /**
    Decodes a text into the target, white space anywhere in it. The result is
    the number of bytes, or -1; the target is not touched beyond its size.
  */
  method Pton(src: string, target: array?<Byte>, targsize: nat) returns (r: int)
    requires NUL in src
    requires target != null ==> targsize <= target.Length
    modifies target
    ensures Decoded(Strict(Strip(CText(src)), if target == null then None else Some(targsize)), target, r)
    ensures target != null ==> target[targsize..] == old(target[targsize..])
  {
    hide InAlphabet, IsSpace, Strip, Symbols, Whole, Slop, Run, RunValues, Room, AreSextets, Sextet, InPlace, CText, IsText, Pads;
    ghost var t := CText(src);
    TextIs(src);
    var ok, p, state, tarindex;
    ghost var vs;
    ok, p, state, tarindex, vs := TakeCharacters(src, target, targsize, t);
    if !ok {
      return -1;
    }
    TextChar(src, t, p);
    if src[p] == PAD {
      PadIsNoSymbol(0);
      AtStop(t, p, vs);
      ok := CheckPads(src, p, state, t, |vs|);
      if !ok {
        return -1;
      }
      PadsAre(|vs|);
      ok := CheckSlop(target, targsize, state, tarindex, vs);
      if !ok {
        return -1;
      }
    } else {
      assert t[..p] == t;
      AtEnd(t, vs);
      PadsAre(|vs|);
      if state != 0 {
        return -1;
      }
      SlopAtGroup(vs);
    }
    Outcome(t, target, targsize, vs, state, tarindex);
    return tarindex;
  }

  lemma TextChar(src: string, t: string, p: nat)
    requires IsText(src, t) && p <= |t|
    ensures p < |src| && (p < |t| ==> src[p] == t[p] && src[p] != NUL)
    ensures src[p] == PAD ==> p < |t| && !IsSpace(t[p])
  {
  }

  // ------------------------------------------------------------------
  // Decoders and encoders

  /** The lenient decoder inverts both encoders. */
  lemma DecodeInvertsEncode(bytes: seq<Byte>)
    ensures Whole(RunValues(Encode(bytes))) == bytes
  {
    hide *;
    EncodedIsWellFormed(bytes);
    WholeOfSextets(bytes);
  }

  /** On any text the lenient decoder yields the whole bytes in the bits of the leading run. */
  lemma DecodedBits(s: string)
    ensures var bytes := Whole(RunValues(s));
            && |bytes| == 3 * Run(s) / 4
            && Bits(bytes) == SixBits(Values(s[..Run(s)]))[..8 * |bytes|]
  {
    hide Whole, Run, Bits, SixBits, Values, ByteBits;
    WholeCount(RunValues(s));
    BitsAreKept(RunValues(s));
  }

  /** The strict decoder inverts the encoder whatever white space the text is given, exactly when the target has the room. */
  lemma StrictInvertsEncode(t: string, bytes: seq<Byte>, targsize: nat)
    requires Strip(t) == Encode(bytes)
    ensures Strict(Strip(t), Some(targsize))
         == if (if |bytes| % 3 == 0 then |bytes| else |bytes| + 1) <= targsize then Some(bytes) else None
    ensures Strict(Strip(t), None) == Some(bytes)
  {
    hide Run, RunValues, Sextets, Encode, Whole, Slop, WellFormed, Room, Strip;
    EncodedIsWellFormed(bytes);
    WholeOfSextets(bytes);
  }

  /** What Ntop wrote is a text without white space or NUL. */
  lemma EncodedIsStripped(bytes: seq<Byte>)
    ensures Strip(Encode(bytes)) == Encode(bytes) && NUL !in Encode(bytes)
  {
    hide Sextets, Strip, InAlphabet, IsSpace, Symbol, Pads, Run;
    var s := Encode(bytes);
    EncodedRun(bytes);
    PadsOf(bytes);
    forall i | 0 <= i < |s|
      ensures !IsSpace(s[i]) && s[i] != NUL
    {
      if i < Run(s) {
        AlphabetIsBase64(s[i]);
      } else {
        PadIsVisible();
        assert s[i] == s[|Sextets(bytes)|..][i - |Sextets(bytes)|];
      }
    }
    NothingToStrip(s);
  }

  lemma PadIsVisible()
    ensures !IsSpace(PAD) && PAD != NUL
  {
  }

  lemma {:induction false} NothingToStrip(s: string)
    requires forall i | 0 <= i < |s| :: !IsSpace(s[i])
    ensures Strip(s) == s
    decreases |s|
  {
    hide IsSpace;
    if s != "" {
      NothingToStrip(s[..|s|-1]);
    }
  }
}
