/**
  The two converters between UTF-16 and UTF-8, with the exchange of slash and
  colon that separates path names from file names, and what one does to the
  other's output.
*/
module UtfConvert {
  import opened Utf

  datatype ConversionResult = ConversionOk | SourceExhausted | TargetExhausted

  // ------------------------------------------------------------------
  // What is written for one code point, and for many

  // NULs are dropped and slashes become colons on the way to UTF-8
  function Sent(cp: Ucs4): seq<Ucs4> {
    if cp == 0 then [] else if cp == SLASH then [COLON] else [cp]
  }

  function Sents(ps: seq<Ucs4>): seq<Ucs4> {
    if ps == [] then [] else Sent(ps[0]) + Sents(ps[1..])
  }

  function Out8(cp: Ucs4): seq<Byte> {
    Utf8s(Sent(cp))
  }

  function Out8s(ps: seq<Ucs4>): seq<Byte> {
    if ps == [] then [] else Out8(ps[0]) + Out8s(ps[1..])
  }

  // One unit or two: composed characters are taken apart, and what UTF-16 cannot say is replaced
  function UnitsOfPoint(cp: Ucs4): (units: seq<Unit>)
    ensures 1 <= |units| <= 2
  {
    if cp <= 0xFFFF then Pieces(Narrow(cp))
    else if cp > 0x10FFFF then [REPLACEMENT]
    else [HighOf(cp), LowOf(cp)]
  }

  // Colons become slashes on the way to UTF-16
  function Out16(cp: Ucs4): (units: seq<Unit>)
    ensures 1 <= |units| <= 2
  {
    if cp == COLON then [Narrow(SLASH)] else UnitsOfPoint(cp)
  }

  function Out16s(cps: seq<Ucs4>): seq<Unit> {
    if cps == [] then [] else Out16(cps[0]) + Out16s(cps[1..])
  }

  lemma AsciiForm(cp: Ucs4)
    requires cp < 0x80
    ensures Utf8(cp) == [Low(cp)]
  {
  }

  /** Slash and colon change places, NUL goes, and every other code point keeps its form. */
  lemma SentBytes(cp: Ucs4)
    ensures Out8(0) == [] && Out8(0x2F) == [0x3A]
    ensures cp != 0 && cp != 0x2F ==> Out8(cp) == Utf8(cp)
  {
    hide Utf8;
    AsciiForm(COLON);
    NoBytes();
    Utf8sOne(COLON);
    Utf8sOne(cp);
  }

  lemma ReceivedUnits(cp: Ucs4)
    ensures Out16(0x3A) == [0x2F]
    ensures cp != 0x3A && cp <= 0xFFFF ==> Out16(cp) == Pieces(Narrow(cp))
    ensures 0x10000 <= cp <= 0x10FFFF ==> Out16(cp) == [HighOf(cp), LowOf(cp)]
    ensures cp > 0x10FFFF ==> Out16(cp) == [0xFFFD]
  {
    hide Pieces, HighOf, LowOf;
  }

  lemma {:induction false} Out8sIsUtf8s(ps: seq<Ucs4>)
    ensures Out8s(ps) == Utf8s(Sents(ps))
  {
    hide Sent, Utf8s;
    if ps == [] {
      assert Utf8s([]) == [] by { NoBytes(); }
    } else {
      Out8sIsUtf8s(ps[1..]);
      Utf8sAppend(Sent(ps[0]), Sents(ps[1..]));
    }
  }

  lemma NoBytes()
    ensures Utf8s([]) == []
  {
  }

  lemma {:induction false} Out8sAppend(a: seq<Ucs4>, b: seq<Ucs4>)
    ensures Out8s(a + b) == Out8s(a) + Out8s(b)
  {
    hide Out8;
    if a == [] {
      assert a + b == b;
    } else {
      Out8sAppend(a[1..], b);
      Associate(Out8(a[0]), Out8s(a[1..]), Out8s(b));
      assert (a + b)[1..] == a[1..] + b;
    }
  }

  lemma Out8sOne(cp: Ucs4)
    ensures Out8s([cp]) == Out8(cp)
  {
    hide Out8;
    assert [cp][1..] == [];
  }

  lemma {:induction false} Out16sAppend(a: seq<Ucs4>, b: seq<Ucs4>)
    ensures Out16s(a + b) == Out16s(a) + Out16s(b)
  {
    hide Out16;
    if a == [] {
      assert a + b == b;
    } else {
      Out16sAppend(a[1..], b);
      Associate(Out16(a[0]), Out16s(a[1..]), Out16s(b));
      assert (a + b)[1..] == a[1..] + b;
    }
  }

  lemma Out16sOne(cp: Ucs4)
    ensures Out16s([cp]) == Out16(cp)
  {
    hide Out16;
    assert [cp][1..] == [];
  }

  // ------------------------------------------------------------------
  // How much fits

  // Room asked for before a code point is written: a NUL asks for a byte it does not use
  function Cost(cp: Ucs4): nat {
    if cp == 0 then 1 else |Out8(cp)|
  }

  /** The number of code points that fit one after the other. */
  function Fit8(ps: seq<Ucs4>, room: nat): (n: nat)
    ensures n <= |ps|
    decreases |ps|
  {
    if ps == [] then 0
    else
      var k := |ps| - 1;
      var n := Fit8(ps[..k], room);
      if n == k && |Out8s(ps[..k])| + Cost(ps[k]) <= room then n + 1 else n
  }

  lemma {:induction false} Fit8Prefix(a: seq<Ucs4>, b: seq<Ucs4>, room: nat)
    ensures Fit8(a, room) <= Fit8(a + b, room)
    ensures Fit8(a, room) < |a| ==> Fit8(a + b, room) == Fit8(a, room)
    decreases |b|
  {
    hide Out8s, Cost;
    if b == [] {
      assert a + b == a;
    } else {
      Fit8Prefix(a, b[..|b|-1], room);
      assert (a + b)[..|a + b| - 1] == a + b[..|b|-1];
    }
  }

  lemma Fit8Snoc(a: seq<Ucs4>, cp: Ucs4, room: nat)
    requires Fit8(a, room) == |a|
    ensures Fit8(a + [cp], room) == if |Out8s(a)| + Cost(cp) <= room then |a| + 1 else |a|
  {
    hide Out8s, Cost;
    assert (a + [cp])[..|a|] == a;
  }

  // ------------------------------------------------------------------
  // UTF-16 to UTF-8

  // The chain that picks the number of bytes; above the last code point a replacement is put in two
  function BytesToWrite(ch: Ucs4): (nat, Ucs4) {
    if ch < 0x80 then (1, ch)
    else if ch < 0x800 then (2, ch)
    else if ch < 0x10000 then (3, ch)
    else if ch < 0x200000 then (4, ch)
    else if ch < 0x4000000 then (5, ch)
    else if ch <= LAST then (6, ch)
    else (2, 0xFFFD)
  }

  /** On what UTF-16 can hold, the chain never reaches five bytes, six bytes or the replacement. */
  lemma AtMostFourBytes(ch: Ucs4)
    requires ch <= 0x10FFFF
    ensures BytesToWrite(ch) == (Width(ch), ch) && Width(ch) <= 4 && (ch <= 0xFFFF ==> Width(ch) <= 3)
  {
  }

  // The bytes that the switch writes when it is entered at case k and falls through
  function FallThrough(ch: Ucs4, k: nat, n: nat): (bytes: seq<Byte>)
    requires 1 <= k <= n
    ensures |bytes| == k
    decreases k
  {
    if k == 1 then [Lead(ch, n)] else FallThrough(Six(ch), k - 1, n) + [Cont(ch)]
  }

  /** The switch, entered at case k: each case writes one byte in front of the last and falls through to the next. */
  method Switch(target: array<Byte>, e: nat, ch: Ucs4, k: nat, n: nat)
    requires 1 <= k <= n && k <= e <= target.Length
    modifies target
    ensures target[..] == old(target[..e-k]) + FallThrough(ch, k, n) + old(target[e..])
    decreases k
  {
    hide *;
    ghost var before := target[..];
    if k == 1 {
      target[e-1] := Lead(ch, n);
      FallLast(ch, n);
      WroteAt(target[..], before, e, k, Lead(ch, n));
    } else {
      var b := ContByte(ch);
      target[e-1] := b;
      WroteAt(target[..], before, e, k, b);
      Switch(target, e - 1, Six(ch), k - 1, n);
      FallNext(ch, Six(ch), k, n);
      Associate(before[..e-k] + FallThrough(Six(ch), k - 1, n), [b], before[e..]);
      Associate(before[..e-k], FallThrough(Six(ch), k - 1, n), [b]);
    }
  }

  // One byte in front of e
  lemma WroteAt<T>(now: seq<T>, before: seq<T>, e: nat, k: nat, b: T)
    requires 1 <= k <= e <= |before| && now == before[e-1 := b]
    ensures now[..e-k] == before[..e-k] && now[e-1..] == [b] + before[e..]
    ensures k == 1 ==> now == before[..e-k] + [b] + before[e..]
  {
  }

  method ContByte(ch: Ucs4) returns (b: Byte)
    ensures b == Cont(ch)
  {
    b := Low((ch | 0x80) & 0xBF);
  }

  lemma FallNext(x: Ucs4, y: Ucs4, k: nat, n: nat)
    requires 2 <= k <= n && y == Six(x)
    ensures FallThrough(x, k, n) == FallThrough(y, k - 1, n) + [Cont(x)]
  {
    hide Lead, Cont;
  }

  lemma FallLast(x: Ucs4, n: nat)
    requires n >= 1
    ensures FallThrough(x, 1, n) == [Lead(x, n)]
  {
    hide Lead;
  }

  lemma FallTwo(x: Ucs4, y: Ucs4, n: nat)
    requires n >= 2 && y == Six(x)
    ensures FallThrough(x, 2, n) == [Lead(y, n), Cont(x)]
  {
    hide FallThrough, Lead, Cont, Six;
    FallNext(x, y, 2, n);
    FallLast(y, n);
  }

  lemma FallThree(x: Ucs4, y: Ucs4, z: Ucs4, n: nat)
    requires n >= 3 && y == Six(x) && z == Six(y)
    ensures FallThrough(x, 3, n) == [Lead(z, n), Cont(y), Cont(x)]
  {
    hide FallThrough, Lead, Cont, Six;
    FallNext(x, y, 3, n);
    FallTwo(y, z, n);
  }

  lemma FallFour(x: Ucs4, y: Ucs4, z: Ucs4, u: Ucs4, n: nat)
    requires n >= 4 && y == Six(x) && z == Six(y) && u == Six(z)
    ensures FallThrough(x, 4, n) == [Lead(u, n), Cont(z), Cont(y), Cont(x)]
  {
    hide FallThrough, Lead, Cont, Six;
    FallNext(x, y, 4, n);
    FallThree(y, z, u, n);
  }

  lemma FallFive(x: Ucs4, y: Ucs4, z: Ucs4, u: Ucs4, v: Ucs4, n: nat)
    requires n >= 5 && y == Six(x) && z == Six(y) && u == Six(z) && v == Six(u)
    ensures FallThrough(x, 5, n) == [Lead(v, n), Cont(u), Cont(z), Cont(y), Cont(x)]
  {
    hide FallThrough, Lead, Cont, Six;
    FallNext(x, y, 5, n);
    FallFour(y, z, u, v, n);
  }

  lemma FallSix(x: Ucs4, y: Ucs4, z: Ucs4, u: Ucs4, v: Ucs4, w: Ucs4, n: nat)
    requires n >= 6 && y == Six(x) && z == Six(y) && u == Six(z) && v == Six(u) && w == Six(v)
    ensures FallThrough(x, 6, n) == [Lead(w, n), Cont(v), Cont(u), Cont(z), Cont(y), Cont(x)]
  {
    hide FallThrough, Lead, Cont, Six;
    FallNext(x, y, 6, n);
    FallFive(y, z, u, v, w, n);
  }

  lemma SwitchOfTwo(x: Ucs4)
    ensures FallThrough(x, 2, 2) == Form(x, 2)
  {
    hide FallThrough, Lead, Cont, Six;
    FallTwo(x, Six(x), 2);
  }

  lemma SwitchOfThree(x: Ucs4)
    ensures FallThrough(x, 3, 3) == Form(x, 3)
  {
    hide FallThrough, Lead, Cont, Six;
    FallThree(x, Six(x), Six(Six(x)), 3);
  }

  lemma SwitchOfFour(x: Ucs4)
    ensures FallThrough(x, 4, 4) == Form(x, 4)
  {
    hide FallThrough, Lead, Cont, Six;
    FallFour(x, Six(x), Six(Six(x)), Six(Six(Six(x))), 4);
  }

  lemma SwitchOfFive(x: Ucs4)
    ensures FallThrough(x, 5, 5) == Form(x, 5)
  {
    hide FallThrough, Lead, Cont, Six;
    FallFive(x, Six(x), Six(Six(x)), Six(Six(Six(x))), Six(Six(Six(Six(x)))), 5);
  }

  lemma SwitchOfSix(x: Ucs4)
    ensures FallThrough(x, 6, 6) == Form(x, 6)
  {
    hide FallThrough, Lead, Cont, Six;
    FallSix(x, Six(x), Six(Six(x)), Six(Six(Six(x))), Six(Six(Six(Six(x)))), Six(Six(Six(Six(Six(x))))), 6);
  }

  /** What the switch writes is the form. */
  lemma FallThroughIsForm(x: Ucs4, n: nat)
    requires 1 <= n <= 6
    ensures FallThrough(x, n, n) == Form(x, n)
  {
    hide FallThrough, Form;
    match n {
      case 1 => SwitchOfOne(x);
      case 2 => SwitchOfTwo(x);
      case 3 => SwitchOfThree(x);
      case 4 => SwitchOfFour(x);
      case 5 => SwitchOfFive(x);
      case 6 => SwitchOfSix(x);
    }
  }

  lemma SwitchOfOne(x: Ucs4)
    ensures FallThrough(x, 1, 1) == Form(x, 1)
  {
    FallLast(x, 1);
  }

  // What a code point leaves in the target
  lemma AsciiOut(ch: Ucs4)
    requires ch < 0x80
    ensures Out8(ch) == if ch == 0 then [] else [Low(if ch == SLASH then COLON else ch)]
    ensures Cost(ch) == 1
  {
    hide Low;
    Utf8sOne(if ch == SLASH then COLON else ch);
    NoBytes();
  }

  lemma WideOut(ch: Ucs4)
    requires 0x80 <= ch
    ensures Out8(ch) == Utf8(ch) && Cost(ch) == Width(ch)
  {
    hide Form, Width;
    Utf8sOne(ch);
  }

  method PutAscii(target: array<Byte>, t: nat, targetEnd: nat, ch0: Ucs4) returns (ok: bool, t': nat)
    requires ch0 < 0x80 && t <= targetEnd <= target.Length
    modifies target
    ensures ok <==> t + Cost(ch0) <= targetEnd
    ensures t' == (if ok then t + |Out8(ch0)| else t) && t' <= targetEnd
    ensures target[..] == old(target[..t]) + (if ok then Out8(ch0) else []) + old(target[t'..])
  {
    hide Out8, Cost, Low;
    AsciiOut(ch0);
    var ch := ch0;
    if ch == SLASH {
      ch := COLON;
    }
    if t >= targetEnd {
      assert target[..] == target[..t] + [] + target[t..];
      return false, t;
    }
    if ch == 0 {
      assert target[..] == target[..t] + [] + target[t..];
      return true, t;
    }
    target[t] := Low(ch);
    return true, t + 1;
  }

  method PutWide(target: array<Byte>, t: nat, targetEnd: nat, ch0: Ucs4) returns (ok: bool, t': nat)
    requires 0x80 <= ch0 <= 0x10FFFF && t <= targetEnd <= target.Length
    modifies target
    ensures ok <==> t + Cost(ch0) <= targetEnd
    ensures t' == (if ok then t + |Out8(ch0)| else t) && t' <= targetEnd
    ensures target[..] == old(target[..t]) + (if ok then Out8(ch0) else []) + old(target[t'..])
  {
    hide Out8, Cost, Form, FallThrough, BytesToWrite;
    WideOut(ch0);
    AtMostFourBytes(ch0);
    var (bytesToWrite, ch) := BytesToWrite(ch0);
    t' := t + bytesToWrite;
    if t' > targetEnd {
      t' := t' - bytesToWrite;
      assert target[..] == target[..t] + [] + target[t..];
      return false, t';
    }
    FallThroughIsForm(ch, bytesToWrite);
    Switch(target, t', ch, bytesToWrite, bytesToWrite);
    return true, t';
  }

  // Joins a surrogate pair, or takes one unit
  method TakePoint(source: seq<Unit>, s: nat) returns (ch: Ucs4, s': nat)
    requires s < |source|
    ensures s < s' <= |source| && Points(source[s..]) == [ch] + Points(source[s'..])
    ensures ch <= 0x10FFFF
    ensures ch < 0x80 <==> WideUnit(source[s]) < 0x80
  {
    hide Combine, WideUnit;
    ch, s' := WideUnit(source[s]), s + 1;
    UnitWidens(source[s]);
    SurrogateWidens(source[s]);
    if 0xD800 <= ch && ch <= 0xDBFF && s' < |source| {
      var ch2 := WideUnit(source[s']);
      SurrogateWidens(source[s']);
      if 0xDC00 <= ch2 && ch2 <= 0xDFFF {
        SplitJoined(source[s], source[s']);
        ch := Combine(ch, ch2);
        s' := s' + 1;
        assert source[s..][2..] == source[s'..];
        return;
      }
    }
    assert source[s..][1..] == source[s'..];
  }

  lemma SurrogateWidens(u: Unit)
    ensures IsHigh(u) <==> 0xD800 <= WideUnit(u) <= 0xDBFF
    ensures IsLow(u) <==> 0xDC00 <= WideUnit(u) <= 0xDFFF
  {
  }

  // The target with what was written in its place
  ghost predicate Wrote<T>(now: seq<T>, before: seq<T>, t0: nat, t: nat, out: seq<T>) {
    && t0 <= t <= |before| && t == t0 + |out|
    && now == before[..t0] + out + before[t..]
  }

  lemma WroteNothing<T>(before: seq<T>, t: nat)
    requires t <= |before|
    ensures Wrote(before, before, t, t, [])
  {
  }

  lemma WroteMore<T>(now: seq<T>, mid: seq<T>, before: seq<T>, t0: nat, t: nat, t': nat, out: seq<T>, more: seq<T>)
    requires Wrote(mid, before, t0, t, out) && Wrote(now, mid, t, t', more)
    ensures Wrote(now, before, t0, t', out + more)
  {
    assert mid[..t] == before[..t0] + out;
    assert mid[t'..] == before[t'..];
  }

  /**
    UTF-16 to UTF-8. What is written is the UTF-8 of as many code points as fit,
    whole ones only and never beyond the end of the target. When one does not
    fit, the source has already moved past it.
  */
  method Utf16ToUtf8(source: seq<Unit>, target: array<Byte>, t0: nat, targetEnd: nat) returns (result: ConversionResult, s: nat, t: nat)
    requires t0 <= targetEnd <= target.Length
    modifies target
    ensures var ps := Points(source);
            var n := Fit8(ps, targetEnd - t0);
            && t <= targetEnd && Wrote(target[..], old(target[..]), t0, t, Out8s(ps[..n]))
            && result == (if n == |ps| then ConversionOk else TargetExhausted)
            && s <= |source| && (if n == |ps| then s == |source| else Points(source[s..]) == ps[n+1..])
  {
    hide *;
    result, s, t := ConversionOk, 0, t0;
    ghost var done: seq<Ucs4>, before := [], target[..];
    NothingDone(source, targetEnd - t0);
    WroteNothing(before, t0);
    while s < |source|
      invariant s <= |source| && t <= targetEnd && result == ConversionOk
      invariant Points(source) == done + Points(source[s..]) && Fit8(done, targetEnd - t0) == |done|
      invariant Wrote(target[..], before, t0, t, Out8s(done))
    {
      var ch, ok;
      ghost var rest, mid, t1 := Points(source[s..]), target[..], t;
      ch, s := TakePoint(source, s);
      if ch < 0x80 {
        ok, t := PutAscii(target, t, targetEnd, ch);
      } else {
        ok, t := PutWide(target, t, targetEnd, ch);
      }
      PointDone(done, ch, Points(source[s..]), targetEnd - t0);
      PutIsWrote(target[..], mid, t1, t, if ok then Out8(ch) else []);
      WroteMore(target[..], mid, before, t0, t1, t, Out8s(done), if ok then Out8(ch) else []);
      SizeWritten(mid, before, t0, t1, Out8s(done));
      if !ok {
        assert Out8s(done) + [] == Out8s(done);
        result := TargetExhausted;
        return;
      }
      done := done + [ch];
    }
    AllDone(source, done);
  }

  lemma AllDone(source: seq<Unit>, done: seq<Ucs4>)
    requires Points(source) == done + Points(source[|source|..])
    ensures Points(source) == done == done[..|done|]
  {
  }

  lemma NothingDone(source: seq<Unit>, room: nat)
    ensures Points(source) == [] + Points(source[0..]) && Fit8([], room) == 0 && Out8s([]) == []
  {
    assert source[0..] == source;
  }

  lemma PutIsWrote<T>(now: seq<T>, before: seq<T>, t: nat, t': nat, out: seq<T>)
    requires t <= t' <= |before| && t' == t + |out| && now == before[..t] + out + before[t'..]
    ensures Wrote(now, before, t, t', out)
  {
  }

  lemma SizeWritten<T>(now: seq<T>, before: seq<T>, t0: nat, t: nat, out: seq<T>)
    requires Wrote(now, before, t0, t, out)
    ensures t == t0 + |out|
  {
  }

  // One more point: it fits or ends the conversion
  lemma PointDone(done: seq<Ucs4>, ch: Ucs4, rest: seq<Ucs4>, room: nat)
    requires Fit8(done, room) == |done|
    ensures Out8s(done + [ch]) == Out8s(done) + Out8(ch)
    ensures done + ([ch] + rest) == (done + [ch]) + rest
    ensures |Out8s(done)| + Cost(ch) <= room ==> Fit8(done + [ch], room) == |done| + 1
    ensures |Out8s(done)| + Cost(ch) > room ==>
              && Fit8(done + [ch] + rest, room) == |done|
              && (done + [ch] + rest)[..|done|] == done && (done + [ch] + rest)[|done|+1..] == rest
  {
    hide Out8s, Out8, Cost, Fit8;
    Out8sAppend(done, [ch]);
    Out8sOne(ch);
    Fit8Snoc(done, ch, room);
    Fit8Prefix(done + [ch], rest, room);
  }

  // Conversion succeeds exactly when all fits
  lemma {:induction false} Fit8All(ps: seq<Ucs4>, room: nat)
    ensures Fit8(ps, room) == |ps| <==> forall k | 0 <= k < |ps| :: |Out8s(ps[..k])| + Cost(ps[k]) <= room
    decreases |ps|
  {
    hide Out8s, Cost;
    if ps != [] {
      var p := ps[..|ps|-1];
      Fit8All(p, room);
      assert forall k | 0 <= k < |p| :: p[..k] == ps[..k] && p[k] == ps[k];
    }
  }

  lemma SentSize(cp: Ucs4)
    ensures cp == 0 ==> Out8(cp) == [] && Cost(cp) == 1
    ensures cp != 0 ==> |Out8(cp)| >= 1 && Cost(cp) == |Out8(cp)|
  {
    hide Utf8;
    SentBytes(cp);
  }

  /** So it succeeds exactly when the bytes fit; a NUL at the end, which is dropped, takes the room of one. */
  lemma {:induction false} SucceedsIff(ps: seq<Ucs4>, room: nat)
    ensures Fit8(ps, room) == |ps| <==> |Out8s(ps)| + (if ps != [] && ps[|ps|-1] == 0 then 1 else 0) <= room
    decreases |ps|
  {
    hide Out8s, Out8, Cost;
    if ps == [] {
      NothingSent();
    } else {
      var p, cp := ps[..|ps|-1], ps[|ps|-1];
      SucceedsIff(p, room);
      SentSize(cp);
      assert ps == p + [cp];
      Out8sAppend(p, [cp]);
      Out8sOne(cp);
    }
  }

  lemma NothingSent()
    ensures Out8s([]) == []
  {
  }

  lemma BytesPerPoint(cp: Ucs4)
    requires cp <= 0x10FFFF
    ensures |Out8(cp)| <= if cp <= 0xFFFF then 3 else 4
  {
    hide Form;
    if cp == 0 {
      NoBytes();
    } else if cp == SLASH {
      Utf8sOne(COLON);
    } else {
      Utf8sOne(cp);
    }
  }

  /** Three bytes a unit are always enough. */
  lemma {:induction false} ThreeBytesPerUnit(units: seq<Unit>)
    ensures |Out8s(Points(units))| <= 3 * |units|
    decreases |units|
  {
    hide Out8, Joined, WideUnit, IsHigh, IsLow;
    if units != [] {
      if Pairs(units) {
        SplitJoined(units[0], units[1]);
        BytesPerPoint(Joined(units[0], units[1]));
        ThreeBytesPerUnit(units[2..]);
        assert Points(units)[1..] == Points(units[2..]);
      } else {
        UnitWidens(units[0]);
        BytesPerPoint(WideUnit(units[0]));
        ThreeBytesPerUnit(units[1..]);
        assert Points(units)[1..] == Points(units[1..]);
      }
    }
  }

  // ------------------------------------------------------------------
  // UTF-8 to UTF-16

  // The bytes of one character, well-formed or not
  type Character = c: seq<Byte> | c != [] witness [0x20]

  // An ASCII byte stands alone; any other byte announces how many go with it
  function Announced(b: Byte): (n: nat)
    ensures 1 <= n <= 6
  {
    if IsAscii(b) then 1 else Extra(b) + 1
  }

  predicate HasWhole(source: seq<Byte>) {
    source != [] && Announced(source[0]) <= |source|
  }

  /** The characters that a source of any bytes is read as. */
  function Chars(source: seq<Byte>): seq<Character> {
    if !HasWhole(source) then []
    else
      var n := Announced(source[0]);
      [source[..n]] + Chars(source[n..])
  }

  // The bytes behind the last whole character
  function Remains(source: seq<Byte>): seq<Byte> {
    if !HasWhole(source) then source else Remains(source[Announced(source[0])..])
  }

  function Bytes(chars: seq<Character>): seq<Byte> {
    if chars == [] then [] else chars[0] + Bytes(chars[1..])
  }

  /** Every source is its characters and what remains. */
  lemma {:induction false} CharsAndRemains(source: seq<Byte>)
    ensures source == Bytes(Chars(source)) + Remains(source) && !HasWhole(Remains(source))
    decreases |source|
  {
    hide *;
    if HasWhole(source) {
      var n := FirstRead(source);
      CharsAndRemains(source[n..]);
      BytesCons(source[..n], Chars(source[n..]));
      Associate(source[..n], Bytes(Chars(source[n..])), Remains(source[n..]));
    } else {
      NothingWhole(source);
      NoCharacters(source);
    }
  }

  lemma FirstRead(source: seq<Byte>) returns (n: nat)
    requires HasWhole(source)
    ensures 1 <= n <= |source| && source == source[..n] + source[n..]
    ensures Chars(source) == [source[..n]] + Chars(source[n..]) && Remains(source) == Remains(source[n..])
  {
    hide Announced;
    n := Announced(source[0]);
  }

  lemma BytesCons(c: Character, chars: seq<Character>)
    ensures Bytes([c] + chars) == c + Bytes(chars)
  {
    assert ([c] + chars)[1..] == chars;
  }

  lemma NoCharacters(source: seq<Byte>)
    ensures source == Bytes([]) + source
  {
  }

  lemma NothingWhole(source: seq<Byte>)
    requires !HasWhole(source)
    ensures Chars(source) == [] && Remains(source) == source
  {
  }

  // The bytes of a character that is cut off by the end of the source, two bytes or more short
  predicate Truncated(tail: seq<Byte>) {
    tail != [] ==> !IsAscii(tail[0]) && |tail| < Extra(tail[0])
  }

  /**
    Exactly when the check for a cut-off character sees one: it does when two
    bytes or more are missing, and with one byte missing it reads on.
  */
  lemma CutOffIsSeenIff(cp: Ucs4, k: nat)
    requires 0x80 <= cp <= LAST && 0 < k < Width(cp)
    ensures Truncated(Utf8(cp)[..k]) <==> k + 1 < Width(cp)
  {
    hide Form;
    GatherInvertsForm(cp);
  }

  // The units of one character: what its bytes add up to, or for ASCII the byte itself with colons replaced
  function UnitsOf(c: Character): (units: seq<Unit>)
    ensures 1 <= |units| <= 2
  {
    if IsAscii(c[0]) then [Narrow(Wide(if c[0] == 0x3A then 0x2F else c[0]))]
    else UnitsOfPoint(Shifted(Gather(c), |c| - 1))
  }

  function AllUnits(chars: seq<Character>): seq<Unit> {
    if chars == [] then [] else UnitsOf(chars[0]) + AllUnits(chars[1..])
  }

  lemma {:induction false} AllUnitsSnoc(chars: seq<Character>, c: Character)
    ensures AllUnits(chars + [c]) == AllUnits(chars) + UnitsOf(c)
    ensures Bytes(chars + [c]) == Bytes(chars) + c
  {
    hide UnitsOf;
    if chars == [] {
      assert chars + [c] == [c] && [c][1..] == [];
      assert [] + UnitsOf(c) == UnitsOf(c) + [] && [] + c == c + [];
    } else {
      AllUnitsSnoc(chars[1..], c);
      assert (chars + [c])[1..] == chars[1..] + [c];
      Associate(UnitsOf(chars[0]), AllUnits(chars[1..]), UnitsOf(c));
      Associate(chars[0], Bytes(chars[1..]), c);
    }
  }

  /** The number of characters whose units fit one after the other. */
  function FitChars(chars: seq<Character>, room: nat): (n: nat)
    ensures n <= |chars|
    decreases |chars|
  {
    if chars == [] then 0
    else
      var k := |chars| - 1;
      var n := FitChars(chars[..k], room);
      if n == k && |AllUnits(chars)| <= room then n + 1 else n
  }

  /** All fit exactly when all their units do. */
  lemma {:induction false} FitCharsAll(chars: seq<Character>, room: nat)
    ensures FitChars(chars, room) == |chars| <==> |AllUnits(chars)| <= room
    decreases |chars|
  {
    hide UnitsOf;
    if chars != [] {
      var p := chars[..|chars|-1];
      FitCharsAll(p, room);
      assert chars == p + [chars[|chars|-1]];
      AllUnitsSnoc(p, chars[|chars|-1]);
    }
  }

  lemma {:induction false} FitCharsPrefix(a: seq<Character>, b: seq<Character>, room: nat)
    ensures FitChars(a, room) <= FitChars(a + b, room)
    ensures FitChars(a, room) < |a| ==> FitChars(a + b, room) == FitChars(a, room)
    decreases |b|
  {
    hide AllUnits;
    if b == [] {
      assert a + b == a;
    } else {
      FitCharsPrefix(a, b[..|b|-1], room);
      assert (a + b)[..|a + b| - 1] == a + b[..|b|-1];
    }
  }

  /** Room that the source takes for granted: an ASCII byte is stored without a look at the end of the target. */
  ghost predicate RoomForAscii(chars: seq<Character>, room: nat) {
    forall k | 0 <= k < |chars| && IsAscii(chars[k][0]) :: |AllUnits(chars[..k])| != room
  }

  /** The switch, entered at case k: adds up a byte and falls through to the next. */
  method AddUp(source: seq<Byte>, s: nat, k: nat, sum: Ucs4, ghost from: nat) returns (ch: Ucs4, s': nat)
    requires from <= s && s + k < |source| && k <= 5 && sum == (if s == from then 0 else Up(Gather(source[from..s])))
    ensures s' == s + k + 1 && ch == Gather(source[from..s'])
    decreases k
  {
    hide Wide, Gather, Up, Plus;
    var b := source[s];
    ch := Plus(sum, b);
    s' := s + 1;
    NextByte(source, s, from, sum);
    if k > 0 {
      ch, s' := AddUp(source, s', k - 1, Up(ch), from);
    }
  }

  lemma NextByte(source: seq<Byte>, s: nat, from: nat, sum: Ucs4)
    requires from <= s < |source| && sum == (if s == from then 0 else Up(Gather(source[from..s])))
    ensures Plus(sum, source[s]) == Gather(source[from..s+1])
  {
    hide Wide, Gather, Up, Plus;
    assert source[from..s+1] == source[from..s] + [source[s]];
    GatherSnoc(source[from..s], source[s]);
    if s == from {
      assert source[from..s] == [];
      GatherNone();
    }
  }

  lemma GatherNone()
    ensures Gather([]) == 0 && Up(0) == 0
  {
  }

  // What is left in the target of a character that does not fit: the base of a composed one may be
  function Cut(c: Character, left: nat): seq<Unit> {
    if left == 1 && !IsAscii(c[0]) && Shifted(Gather(c), |c| - 1) <= 0xFFFF then [UnitsOf(c)[0]] else []
  }

  function CutPoint(cp: Ucs4, left: nat): seq<Unit> {
    if left == 1 && cp <= 0xFFFF then [UnitsOfPoint(cp)[0]] else []
  }

  // Only composed characters have two pieces, and no piece is a surrogate then
  lemma TwoPieces(u: Unit)
    requires |Pieces(u)| == 2
    ensures !IsHigh(Pieces(u)[0])
  {
    hide Latin, Kana, KanaBit, WordBit;
    if 0xC0 <= u <= 0xFF {
      LatinLetter(u);
      assert LatinParts(u);
    } else if 0x3000 < u < 0x3100 && KanaBit(u) {
      KanaBitIs(u);
      KanaParts(u);
    }
  }

  /** A character that does not fit leaves the front of its units up to the end of the target, but never half of a surrogate pair. */
  lemma CutIsFront(c: Character, left: nat)
    requires left < |UnitsOf(c)|
    ensures Cut(c, left) == if IsHigh(UnitsOf(c)[0]) then [] else UnitsOf(c)[..left]
  {
    hide Pieces, Shifted, Gather, HighOf, LowOf, Joined;
    if left == 1 {
      var cp := Shifted(Gather(c), |c| - 1);
      assert !IsAscii(c[0]);
      if cp <= 0xFFFF {
        TwoPieces(Narrow(cp));
      } else {
        SplitIsSurrogates(cp);
      }
    }
  }

  lemma WroteOne<T>(now: seq<T>, before: seq<T>, t: nat, x: T)
    requires t < |before| && now == before[t := x]
    ensures Wrote(now, before, t, t + 1, [x])
  {
  }

  lemma WroteTwo<T>(now: seq<T>, before: seq<T>, t: nat, x: T, y: T)
    requires t + 1 < |before| && now == before[t := x][t + 1 := y]
    ensures Wrote(now, before, t, t + 2, [x, y])
  {
  }

  lemma BmpOut(cp: Ucs4)
    requires cp <= 0xFFFF
    ensures var (d, c) := Decomposer(Narrow(cp)); UnitsOfPoint(cp) == if c == 0 then [d] else [d, c]
  {
    hide Decomposer, Narrow;
  }

  lemma BeyondOut(cp: Ucs4)
    requires 0xFFFF < cp
    ensures UnitsOfPoint(cp) == if cp > 0x10FFFF then [REPLACEMENT] else [HighOf(cp), LowOf(cp)]
  {
    hide HighOf, LowOf;
  }

  method PutBmp(target: array<Unit>, t: nat, targetEnd: nat, ch: Ucs4) returns (ok: bool, t': nat)
    requires ch <= 0xFFFF && t < targetEnd <= target.Length
    modifies target
    ensures ok <==> t + |UnitsOfPoint(ch)| <= targetEnd
    ensures t' <= targetEnd && Wrote(target[..], old(target[..]), t, t', if ok then UnitsOfPoint(ch) else CutPoint(ch, targetEnd - t))
  {
    hide Decomposer, Narrow, UnitsOfPoint, Wrote;
    BmpOut(ch);
    ghost var before := target[..];
    var (d, combine) := Decomposer(Narrow(ch));
    target[t] := d;
    t' := t + 1;
    WroteOne(target[..], before, t, d);
    if combine != 0 {
      if t' >= targetEnd {
        return false, t';
      }
      target[t'] := combine;
      t' := t' + 1;
      WroteTwo(target[..], before, t, d, combine);
    }
    ok := true;
  }

  method PutBeyond(target: array<Unit>, t: nat, targetEnd: nat, ch: Ucs4) returns (ok: bool, t': nat)
    requires 0xFFFF < ch && t < targetEnd <= target.Length
    modifies target
    ensures ok <==> t + |UnitsOfPoint(ch)| <= targetEnd
    ensures t' <= targetEnd && Wrote(target[..], old(target[..]), t, t', if ok then UnitsOfPoint(ch) else CutPoint(ch, targetEnd - t))
  {
    hide HighOf, LowOf, UnitsOfPoint, Wrote;
    BeyondOut(ch);
    ghost var before := target[..];
    if ch > 0x10FFFF {
      target[t] := REPLACEMENT;
      WroteOne(target[..], before, t, REPLACEMENT);
      return true, t + 1;
    }
    if t + 1 >= targetEnd {
      WroteNothing(before, t);
      return false, t;
    }
    target[t] := HighOf(ch);
    target[t + 1] := LowOf(ch);
    WroteTwo(target[..], before, t, HighOf(ch), LowOf(ch));
    return true, t + 2;
  }

  // One code point
  method PutUnits(target: array<Unit>, t: nat, targetEnd: nat, ch: Ucs4) returns (ok: bool, t': nat)
    requires t <= targetEnd <= target.Length
    modifies target
    ensures ok <==> t + |UnitsOfPoint(ch)| <= targetEnd
    ensures t' <= targetEnd && Wrote(target[..], old(target[..]), t, t', if ok then UnitsOfPoint(ch) else CutPoint(ch, targetEnd - t))
  {
    hide UnitsOfPoint, Wrote;
    if t >= targetEnd {
      WroteNothing(target[..], t);
      return false, t;
    }
    if ch <= 0xFFFF {
      ok, t' := PutBmp(target, t, targetEnd, ch);
    } else {
      ok, t' := PutBeyond(target, t, targetEnd, ch);
    }
  }

  lemma AsciiCharacterUnits(c: Character)
    requires IsAscii(c[0])
    ensures UnitsOf(c) == [Narrow(Wide(if c[0] == 0x3A then 0x2F else c[0]))]
  {
  }

  lemma PointUnits(c: Character, left: nat)
    requires !IsAscii(c[0])
    ensures var ch := Shifted(Gather(c), |c| - 1); UnitsOf(c) == UnitsOfPoint(ch) && Cut(c, left) == CutPoint(ch, left)
  {
    hide UnitsOfPoint, Shifted, Gather, IsAscii;
  }

  method PutAsciiUnit(target: array<Unit>, t: nat, b0: Byte, ghost c: Character) returns (t': nat)
    requires IsAscii(b0) && c[0] == b0 && t < target.Length
    modifies target
    ensures t' == t + 1 && |UnitsOf(c)| == 1 && Wrote(target[..], old(target[..]), t, t', UnitsOf(c))
  {
    hide UnitsOf, Narrow, Wide, Wrote;
    AsciiCharacterUnits(c);
    ghost var before := target[..];
    var b := b0;
    if b == 0x3A {
      b := 0x2F;
    }
    target[t] := Narrow(Wide(b));
    WroteOne(target[..], before, t, Narrow(Wide(b)));
    return t + 1;
  }

  // The source from s on, its first character, and what follows that
  lemma NextCharacter(source: seq<Byte>, s: nat)
    requires s <= |source| && HasWhole(source[s..])
    ensures var n := Announced(source[s]);
            && s < |source| && s + n <= |source|
            && Chars(source[s..]) == [source[s..s+n]] + Chars(source[s+n..])
            && Remains(source[s..]) == Remains(source[s+n..])
  {
    hide Announced;
    var n := Announced(source[s]);
    assert source[s..][..n] == source[s..s+n] && source[s..][n..] == source[s+n..];
  }

  /** One turn of the loop, on a source that goes on with a whole character. */
  method TakeCharacter(source: seq<Byte>, s: nat, target: array<Unit>, t: nat, targetEnd: nat, ghost c: Character)
    returns (ok: bool, s': nat, t': nat)
    requires s < |source| && s + Announced(source[s]) <= |source| && c == source[s..s+Announced(source[s])]
    requires t <= targetEnd <= target.Length && (IsAscii(c[0]) ==> t < targetEnd)
    modifies target
    ensures ok <==> t + |UnitsOf(c)| <= targetEnd
    ensures s' == s + |c|
    ensures t' <= targetEnd && Wrote(target[..], old(target[..]), t, t', if ok then UnitsOf(c) else Cut(c, targetEnd - t))
  {
    hide *;
    AnnouncedIs(source[s]);
    var b := source[s];
    assert c[0] == b;
    if IsAscii(b) {
      s' := s + 1;
      t' := PutAsciiUnit(target, t, b, c);
      ok := true;
      return;
    }
    var extra := Extra(b);
    var ch;
    ch, s' := AddUp(source, s, extra, 0, s);
    ch := Shifted(ch, extra);
    PointUnits(c, targetEnd - t);
    ok, t' := PutUnits(target, t, targetEnd, ch);
  }

  lemma AnnouncedIs(b: Byte)
    ensures Announced(b) == if IsAscii(b) then 1 else Extra(b) + 1
  {
  }

  // One more character: it fits or ends the conversion
  lemma CharacterDone(done: seq<Character>, c: Character, rest: seq<Character>, room: nat)
    requires FitChars(done, room) == |done|
    ensures var all := done + ([c] + rest);
            && AllUnits(done + [c]) == AllUnits(done) + UnitsOf(c) && Bytes(done + [c]) == Bytes(done) + c
            && all == (done + [c]) + rest && all[..|done|] == done && all[|done|] == c && all[..|done|+1] == done + [c]
            && (|AllUnits(done)| + |UnitsOf(c)| <= room ==> FitChars(done + [c], room) == |done| + 1)
            && (|AllUnits(done)| + |UnitsOf(c)| > room ==> FitChars(all, room) == |done|)
  {
    hide AllUnits, UnitsOf, Bytes;
    assert done + ([c] + rest) == (done + [c]) + rest;
    assert (done + [c])[..|done|] == done;
    AllUnitsSnoc(done, c);
    FitCharsPrefix(done + [c], rest, room);
  }

  lemma NothingRead(source: seq<Byte>, room: nat)
    ensures source[0..] == source && [] + Chars(source) == Chars(source)
    ensures FitChars([], room) == 0 && AllUnits([]) == [] && Bytes([]) == []
  {
  }

  lemma AsciiFits(done: seq<Character>, c: Character, rest: seq<Character>, room: nat)
    requires RoomForAscii(done + ([c] + rest), room) && |AllUnits(done)| <= room
    ensures IsAscii(c[0]) ==> |AllUnits(done)| < room
  {
    hide AllUnits, IsAscii;
    var all := done + ([c] + rest);
    assert all[|done|] == c && all[..|done|] == done;
  }

  /**
    UTF-8 to UTF-16, for bytes of any kind that do not end with a character just
    one byte short. What is written are the units of the characters, as far as
    they fit; of the first that does not fit, the base of a composed character
    may still be written.
  */
  method Utf8ToUtf16(source: seq<Byte>, target: array<Unit>, t0: nat, targetEnd: nat) returns (result: ConversionResult, s: nat, t: nat)
    requires t0 <= targetEnd <= target.Length
    requires Truncated(Remains(source)) && RoomForAscii(Chars(source), targetEnd - t0)
    modifies target
    ensures var room, chars := targetEnd - t0, Chars(source);
            var n := FitChars(chars, room);
            && t <= targetEnd
            && result == (if n < |chars| then TargetExhausted else if Remains(source) != [] then SourceExhausted else ConversionOk)
            && |AllUnits(chars[..n])| <= room
            && s == |Bytes(if n < |chars| then chars[..n+1] else chars)|
            && Wrote(target[..], old(target[..]), t0, t,
                     AllUnits(chars[..n]) + if n < |chars| then Cut(chars[n], room - |AllUnits(chars[..n])|) else [])
  {
    hide *;
    result, s, t := ConversionOk, 0, t0;
    ghost var done: seq<Character>, chars, before, room := [], Chars(source), target[..], targetEnd - t0;
    NothingRead(source, room);
    WroteNothing(before, t0);
    while s < |source|
      invariant s <= |source| && chars == done + Chars(source[s..]) && Remains(source) == Remains(source[s..]) && s == |Bytes(done)|
      invariant t <= targetEnd && result == ConversionOk && FitChars(done, room) == |done|
      invariant Wrote(target[..], before, t0, t, AllUnits(done)) && t == t0 + |AllUnits(done)|
    {
      if !IsAscii(source[s]) && s + Extra(source[s]) > |source| {
        CutOff(source, s);
        result := SourceExhausted;
        break;
      }
      GoesOn(source, s);
      NextCharacter(source, s);
      ghost var c: Character, rest := source[s..s+Announced(source[s])], Chars(source[s+Announced(source[s])..]);
      AsciiFits(done, c, rest, room);
      CharacterDone(done, c, rest, room);
      ghost var mid, t1 := target[..], t;
      var ok;
      ok, s, t := TakeCharacter(source, s, target, t, targetEnd, c);
      ghost var more := if ok then UnitsOf(c) else Cut(c, targetEnd - t1);
      WroteMore(target[..], mid, before, t0, t1, t, AllUnits(done), more);
      SizeWritten(target[..], before, t0, t, AllUnits(done) + more);
      if !ok {
        result := TargetExhausted;
        return;
      }
      done := done + [c];
    }
    EndOfSource(source, s);
    assert chars == done && chars[..|chars|] == chars;
    assert AllUnits(chars) + [] == AllUnits(chars);
  }

  lemma CutOff(source: seq<Byte>, s: nat)
    requires s < |source| && !IsAscii(source[s]) && s + Extra(source[s]) > |source|
    ensures Chars(source[s..]) == [] && Remains(source[s..]) == source[s..] != []
  {
    hide Extra, IsAscii;
  }

  lemma GoesOn(source: seq<Byte>, s: nat)
    requires s < |source| && (IsAscii(source[s]) || s + Extra(source[s]) <= |source|) && Truncated(Remains(source[s..]))
    ensures HasWhole(source[s..])
  {
    hide Extra, IsAscii;
  }

  lemma EndOfSource(source: seq<Byte>, s: nat)
    requires s <= |source|
    ensures s == |source| ==> Chars(source[s..]) == [] && Remains(source[s..]) == []
  {
  }

  // ------------------------------------------------------------------
  // Sources that spell code points

  // The code points that the old six-byte UTF-8 can spell
  predicate AllSpelt(cps: seq<Ucs4>) {
    forall i | 0 <= i < |cps| :: cps[i] <= LAST
  }

  lemma AsciiByte(cp: Ucs4)
    requires cp < 0x80
    ensures Utf8(cp) == [Low(cp)] && IsAscii(Low(cp)) && Wide(Low(cp)) == cp
    ensures Low(cp) == 0x3A <==> cp == COLON
    ensures UnitsOfPoint(cp) == [Narrow(cp)] && Narrow(SLASH) == Narrow(Wide(0x2F))
  {
    hide KanaBit, Latin, Kana;
    assert !(0xC0 <= Narrow(cp) <= 0xFF) && !(0x3000 < Narrow(cp) < 0x3100);
  }

  /** The form of a code point is one character, and its units are those of the code point. */
  lemma FormIsCharacter(cp: Ucs4)
    requires cp <= LAST
    ensures Utf8(cp) != [] && Announced(Utf8(cp)[0]) == Width(cp) && UnitsOf(Utf8(cp)) == Out16(cp)
  {
    hide Form, Extra, Shifted, Gather, Low, Narrow, Wide, UnitsOfPoint;
    if cp < 0x80 {
      AsciiByte(cp);
    } else {
      GatherInvertsForm(cp);
    }
  }

  lemma FormIsFirst(cp: Ucs4, rest: seq<Byte>)
    requires cp <= LAST
    ensures Chars(Utf8(cp) + rest) == [Utf8(cp)] + Chars(rest) && Remains(Utf8(cp) + rest) == Remains(rest)
  {
    hide Utf8, Announced, UnitsOf, Out16;
    FormIsCharacter(cp);
    var source := Utf8(cp) + rest;
    assert source[..Width(cp)] == Utf8(cp) && source[Width(cp)..] == rest;
  }

  /** A source that spells code points is read as their forms, and its units are their UTF-16. */
  lemma {:induction false} SpeltIsRead(cps: seq<Ucs4>, tail: seq<Byte>)
    requires AllSpelt(cps) && !HasWhole(tail)
    ensures var source := Utf8s(cps) + tail;
            && |Chars(source)| == |cps| && (forall i | 0 <= i < |cps| :: Chars(source)[i] == Utf8(cps[i]))
            && Remains(source) == tail && AllUnits(Chars(source)) == Out16s(cps)
  {
    hide Utf8, UnitsOf, Out16, HasWhole;
    var source := Utf8s(cps) + tail;
    if cps == [] {
      NothingWhole(tail);
      assert source == tail;
    } else {
      SpeltIsRead(cps[1..], tail);
      FormIsCharacter(cps[0]);
      FormIsFirst(cps[0], Utf8s(cps[1..]) + tail);
      Associate(Utf8(cps[0]), Utf8s(cps[1..]), tail);
      assert Chars(source)[1..] == Chars(Utf8s(cps[1..]) + tail);
    }
  }

  // ------------------------------------------------------------------
  // There and back

  /** What UTF-16 becomes when it is converted to UTF-8 and back. */
  function Back(units: seq<Unit>): seq<Unit> {
    Out16s(Sents(Points(units)))
  }

  lemma {:induction false} SentsSpelt(ps: seq<Ucs4>)
    requires forall i | 0 <= i < |ps| :: ps[i] <= 0x10FFFF
    ensures AllSpelt(Sents(ps))
  {
    if ps != [] {
      SentsSpelt(ps[1..]);
    }
  }

  lemma {:induction false} PointsInRange(units: seq<Unit>)
    ensures forall i | 0 <= i < |Points(units)| :: Points(units)[i] <= 0x10FFFF
    decreases |units|
  {
    hide Joined, WideUnit, IsHigh, IsLow;
    if units != [] {
      if Pairs(units) {
        SplitJoined(units[0], units[1]);
        PointsInRange(units[2..]);
      } else {
        UnitWidens(units[0]);
        PointsInRange(units[1..]);
      }
    }
  }

  /** The first conversion's output is a source for the second, which turns it into Back. */
  lemma OutputIsSource(units: seq<Unit>)
    ensures var source := Out8s(Points(units)); Remains(source) == [] && AllUnits(Chars(source)) == Back(units)
  {
    hide AllSpelt, Sents, Out8s, Utf8s, Out16s, Chars, AllUnits, Remains;
    var cps := Sents(Points(units));
    Out8sIsUtf8s(Points(units));
    PointsInRange(units);
    SentsSpelt(Points(units));
    SpeltIsRead(cps, []);
    assert Utf8s(cps) + [] == Utf8s(cps);
  }

  // Units that come back as they are
  predicate Plain(u: Unit) {
    u != 0 && u != 0x3A && !Decomposable(u)
  }

  predicate AllPlain(units: seq<Unit>) {
    forall i | 0 <= i < |units| :: Plain(units[i])
  }

  lemma SurrogateIsPlain(u: Unit)
    requires IsHigh(u) || IsLow(u)
    ensures Plain(u)
  {
    hide Decomposable;
    Undecomposed(u);
  }

  lemma PlainPieces(u: Unit)
    ensures Pieces(u) == [u] <==> !Decomposable(u)
    ensures Pieces(u)[0] == u <==> !Decomposable(u)
    ensures u != 0 ==> Pieces(u)[0] != 0
  {
    hide Latin, Kana, KanaBit;
    PartsAreWhole(u);
  }

  lemma BackOfPoint(cp: Ucs4, rest: seq<Ucs4>)
    ensures Out16s(Sents([cp] + rest)) == Out16s(Sent(cp)) + Out16s(Sents(rest))
  {
    hide Sent, Out16s;
    assert ([cp] + rest)[1..] == rest;
    Out16sAppend(Sent(cp), Sents(rest));
  }

  // What one unit outside a pair becomes
  function BackOfUnit(u: Unit): seq<Unit> {
    if u == 0 then [] else if u == 0x3A then [0x2F] else Pieces(u)
  }

  lemma UnitBack(u: Unit)
    ensures Out16s(Sent(WideUnit(u))) == BackOfUnit(u)
  {
    hide Pieces, Out16s;
    var cp := WideUnit(u);
    UnitWidens(u);
    AsciiUnits(u);
    if cp == 0 {
      NoUnits();
    } else {
      Out16sOne(if cp == SLASH then COLON else cp);
    }
  }

  lemma AsciiUnits(u: Unit)
    ensures WideUnit(u) == 0 <==> u == 0
    ensures WideUnit(u) == COLON <==> u == 0x3A
    ensures WideUnit(u) == SLASH <==> u == 0x2F
    ensures Narrow(SLASH) == 0x2F
    ensures Pieces(0x2F) == [0x2F]
  {
  }

  lemma NoUnits()
    ensures Out16s([]) == []
  {
  }

  lemma PairBack(h: Unit, l: Unit)
    requires IsHigh(h) && IsLow(l)
    ensures Out16s(Sent(Joined(h, l))) == [h, l]
  {
    hide Joined, HighOf, LowOf, Out16s;
    SplitJoined(h, l);
    Out16sOne(Joined(h, l));
  }

  lemma BackStep(units: seq<Unit>)
    requires units != []
    ensures Back(units) == if Pairs(units) then units[..2] + Back(units[2..]) else BackOfUnit(units[0]) + Back(units[1..])
  {
    hide Out16s, Sents, Sent, Joined, WideUnit, BackOfUnit, IsHigh, IsLow;
    if Pairs(units) {
      PairBack(units[0], units[1]);
      BackOfPoint(Joined(units[0], units[1]), Points(units[2..]));
      assert units[..2] == [units[0], units[1]];
    } else {
      UnitBack(units[0]);
      BackOfPoint(WideUnit(units[0]), Points(units[1..]));
    }
  }

  // No NUL comes back
  lemma {:induction false} NoNulFirst(units: seq<Unit>)
    ensures Back(units) != [] ==> Back(units)[0] != 0
    decreases |units|
  {
    hide Back, Pieces, IsHigh, IsLow;
    if units == [] {
      NothingBack();
    } else {
      BackStep(units);
      if Pairs(units) {
        SurrogateIsPlain(units[0]);
      } else if units[0] == 0 {
        NoNulFirst(units[1..]);
        assert [] + Back(units[1..]) == Back(units[1..]);
      } else {
        PlainPieces(units[0]);
      }
    }
  }

  lemma NothingBack()
    ensures Back([]) == []
  {
  }

  lemma PrefixEqual<T>(a: seq<T>, b: seq<T>, c: seq<T>)
    ensures a + b == a + c <==> b == c
  {
    assert (a + b)[|a|..] == b && (a + c)[|a|..] == c;
  }

  lemma PlainSplit(units: seq<Unit>, k: nat)
    requires 1 <= k <= 2 && k <= |units|
    ensures AllPlain(units) <==> AllPlain(units[..k]) && AllPlain(units[k..])
    ensures units == units[..k] + units[k..]
  {
    hide Plain;
    forall i | 0 <= i < |units|
      ensures units[i] == if i < k then units[..k][i] else units[k..][i - k]
    {
    }
  }

  // A unit outside a pair comes back as it is exactly when it is plain; then the rest decides
  lemma UnitDecides(u: Unit, rest: seq<Unit>, back: seq<Unit>, next: seq<Unit>)
    requires back == BackOfUnit(u) + next && (next != [] ==> next[0] != 0)
    ensures back == [u] + rest <==> Plain(u) && next == rest
  {
    hide Decomposable, Pieces;
    PlainPieces(u);
    if Plain(u) {
      PrefixEqual([u], next, rest);
    } else {
      assert ([u] + rest)[0] == u;
      if u == 0 {
        assert back == next;
      } else {
        assert back[0] == BackOfUnit(u)[0];
      }
    }
  }

  /**
    UTF-16 to UTF-8 and back is the identity exactly on units without NUL, colon
    and composed characters, unpaired surrogates included.
  */
  lemma {:induction false} BackIsIdentity(units: seq<Unit>)
    ensures Back(units) == units <==> AllPlain(units)
    decreases |units|
  {
    hide Back, BackOfUnit, Plain, IsHigh, IsLow;
    if units == [] {
      NothingBack();
    } else {
      BackStep(units);
      if Pairs(units) {
        BackIsIdentity(units[2..]);
        PlainSplit(units, 2);
        SurrogateIsPlain(units[0]);
        SurrogateIsPlain(units[1]);
        PrefixEqual(units[..2], Back(units[2..]), units[2..]);
      } else {
        BackIsIdentity(units[1..]);
        PlainSplit(units, 1);
        NoNulFirst(units[1..]);
        assert units[..1] == [units[0]];
        UnitDecides(units[0], units[1..], Back(units), Back(units[1..]));
      }
    }
  }

  lemma OutIsPlain(cp: Ucs4)
    ensures AllPlain(Out16(cp)) <==> cp != 0
  {
    hide Decomposable, Joined;
    if cp == COLON {
      AsciiUnits(0x2F);
      PlainPieces(0x2F);
    } else if cp <= 0xFFFF {
      NarrowIsSame(cp);
      PlainParts(Narrow(cp));
    } else if cp > 0x10FFFF {
      Undecomposed(REPLACEMENT);
    } else {
      SplitIsSurrogates(cp);
      SurrogateIsPlain(HighOf(cp));
      SurrogateIsPlain(LowOf(cp));
    }
  }

  lemma NarrowIsSame(cp: Ucs4)
    requires cp <= 0xFFFF
    ensures Narrow(cp) == 0 <==> cp == 0
    ensures Narrow(cp) == 0x3A <==> cp == COLON
  {
  }

  lemma PlainParts(u: Unit)
    requires u != 0x3A
    ensures AllPlain(Pieces(u)) <==> u != 0
  {
    hide Decomposer;
    PartsAreWhole(u);
    var (d, c) := Decomposer(u);
    if u == 0 {
      NulIsKept();
      assert !Plain(Pieces(u)[0]);
    } else {
      assert Plain(d);
      if c != 0 {
        assert Plain(c);
      }
    }
  }

  lemma NulIsKept()
    ensures Decomposer(0) == (0, 0)
  {
  }

  lemma {:induction false} AllOutIsPlain(cps: seq<Ucs4>)
    ensures AllPlain(Out16s(cps)) <==> 0 !in cps
  {
    hide Out16, AllPlain;
    if cps == [] {
      NothingPlain();
    } else {
      AllOutIsPlain(cps[1..]);
      OutIsPlain(cps[0]);
      var units := Out16s(cps);
      assert units == Out16(cps[0]) + Out16s(cps[1..]);
      PlainSplit(units, |Out16(cps[0])|);
      assert units[..|Out16(cps[0])|] == Out16(cps[0]) && units[|Out16(cps[0])|..] == Out16s(cps[1..]);
      assert 0 in cps <==> cps[0] == 0 || 0 in cps[1..];
    }
  }

  lemma NothingPlain()
    ensures AllPlain([])
  {
  }

  /**
    Normalisation is stable: what UTF-8 without NULs was converted to, colons
    replaced and composed characters taken apart, comes back unchanged.
  */
  lemma NormalisationIsStable(cps: seq<Ucs4>)
    ensures Back(Out16s(cps)) == Out16s(cps) <==> 0 !in cps
  {
    hide *;
    BackIsIdentity(Out16s(cps));
    AllOutIsPlain(cps);
  }
}
