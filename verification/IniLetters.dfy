/**
  The comparison of names, in letters: which characters count as the same, when
  two names do, and where their order is decided.
*/
module IniLetters {
  import opened IniText

  const CAPITALS := "ABCDEFGHIJKLMNOPQRSTUVWXYZ"
  const SMALLS := "abcdefghijklmnopqrstuvwxyz"

  predicate SameLetter(c: char, d: char) {
    c == d || exists k | 0 <= k < 26 :: (c == CAPITALS[k] && d == SMALLS[k]) || (c == SMALLS[k] && d == CAPITALS[k])
  }

  lemma AlphabetInOrder(k: nat)
    requires k < 26
    ensures |CAPITALS| == |SMALLS| == 26
    ensures CAPITALS[k] as int == 'A' as int + k && SMALLS[k] as int == 'a' as int + k
  {
  }

  lemma CapitalsAreRange(c: char)
    ensures c in CAPITALS <==> 'A' <= c <= 'Z'
  {
    if 'A' <= c <= 'Z' {
      AlphabetInOrder(c as int - 'A' as int);
    }
    if c in CAPITALS {
      var k :| 0 <= k < |CAPITALS| && CAPITALS[k] == c;
      AlphabetInOrder(k);
    }
  }

  /** Folding takes each capital letter to its small one, and leaves every other character alone. */
  lemma FoldedLetters(c: char)
    ensures forall k | 0 <= k < 26 :: LoCase(CAPITALS[k]) == SMALLS[k] == LoCase(SMALLS[k])
    ensures c !in CAPITALS ==> LoCase(c) == c
  {
    hide CAPITALS, SMALLS;
    AlphabetInOrder(0);
    forall k | 0 <= k < 26
      ensures LoCase(CAPITALS[k]) == SMALLS[k] == LoCase(SMALLS[k])
    {
      AlphabetInOrder(k);
    }
    CapitalsAreRange(c);
  }

  lemma FoldedAlike(c: char, d: char)
    ensures LoCase(c) == LoCase(d) <==> SameLetter(c, d)
  {
    hide CAPITALS, SMALLS;
    AlphabetInOrder(0);
    FoldedLetters(c);
    CapitalsAreRange(c);
    CapitalsAreRange(d);
    if 'A' <= c <= 'Z' {
      AlphabetInOrder(c as int - 'A' as int);
    }
    if 'A' <= d <= 'Z' {
      AlphabetInOrder(d as int - 'A' as int);
    }
  }

  /** Two names are the same when each has the other's characters, up to the case of the 26 letters. */
  lemma SameNameIff(a: string, b: string)
    ensures SameName(a, b) <==> |a| == |b| && forall i | 0 <= i < |a| :: SameLetter(a[i], b[i])
  {
    hide LoCase, SameLetter;
    if |a| == |b| {
      forall i | 0 <= i < |a|
        ensures Fold(a)[i] == Fold(b)[i] <==> SameLetter(a[i], b[i])
      {
        FoldedAlike(a[i], b[i]);
      }
    }
  }

  // The first place where two names differ by more than letter case, or where one of them ends
  function FirstDifference(a: string, b: string): (n: nat)
    ensures n <= |a| && n <= |b| && forall i | 0 <= i < n :: SameLetter(a[i], b[i])
    ensures n < |a| && n < |b| ==> !SameLetter(a[n], b[n])
  {
    if a == "" || b == "" || !SameLetter(a[0], b[0]) then 0 else 1 + FirstDifference(a[1..], b[1..])
  }

  /** The order of names is decided there: by the codes of the small letters, or by the name that ends. */
  lemma {:induction false} NameLessIff(a: string, b: string)
    ensures var n := FirstDifference(a, b);
            NameLess(a, b) <==> n < |b| && (n == |a| || LoCase(a[n]) < LoCase(b[n]))
  {
    hide LoCase, SameLetter;
    if a != "" && b != "" {
      FoldedAlike(a[0], b[0]);
      assert Fold(a)[1..] == Fold(a[1..]) && Fold(b)[1..] == Fold(b[1..]);
      if SameLetter(a[0], b[0]) {
        NameLessIff(a[1..], b[1..]);
      }
    }
  }
}
