/**
  The order of C strings and of std::string: compare the first characters that
  differ, a proper prefix comes first. Characters are ordered by their code.
*/
module Lexicographic {

  predicate Less(a: string, b: string) {
    if a == [] || b == [] then b != []
    else if a[0] != b[0] then a[0] < b[0]
    else Less(a[1..], b[1..])
  }

  lemma {:induction false} Trichotomy(a: string, b: string)
    ensures Less(a, b) || Less(b, a) || a == b
    ensures !(Less(a, b) && Less(b, a))
    ensures !Less(a, a)
  {
    if a != [] && b != [] && a[0] == b[0] {
      Trichotomy(a[1..], b[1..]);
      assert a == [a[0]] + a[1..] && b == [b[0]] + b[1..];
    }
    if a != [] {
      Irreflexive(a);
    }
  }

  lemma {:induction false} Irreflexive(a: string)
    ensures !Less(a, a)
  {
    if a != [] {
      Irreflexive(a[1..]);
    }
  }

  lemma {:induction false} Transitive(a: string, b: string, c: string)
    requires Less(a, b) && Less(b, c)
    ensures Less(a, c)
  {
    if a != [] && b != [] && c != [] && a[0] == b[0] == c[0] {
      Transitive(a[1..], b[1..], c[1..]);
    }
  }

  // Not-less-than composes with less-than, the form in which sorted sequences use the order
  lemma LessOrEqualThenLess(a: string, b: string, c: string)
    requires !Less(b, a) && Less(b, c)
    ensures Less(a, c)
  {
    Trichotomy(a, b);
    if a != b {
      Transitive(a, b, c);
    }
  }

  lemma LessThenLessOrEqual(a: string, b: string, c: string)
    requires Less(a, b) && !Less(c, b)
    ensures Less(a, c)
  {
    Trichotomy(b, c);
    if b != c {
      Transitive(a, b, c);
    }
  }

  /** Less is decided by the codes behind a common front part, or by the string that ends with it. */
  lemma {:induction false} LessIff(a: string, b: string)
    ensures Less(a, b) <==> exists n | 0 <= n <= |a| && n < |b| :: a[..n] == b[..n] && (n == |a| || a[n] < b[n])
  {
    if a == [] {
      assert b != [] ==> a[..0] == b[..0];
    } else if b != [] {
      if a[0] == b[0] {
        LessIff(a[1..], b[1..]);
        LessBehind(a, b);
      } else {
        assert a[..0] == b[..0];
        assert forall n | 0 < n <= |a| && n < |b| :: a[..n][0] != b[..n][0];
      }
    }
  }

  // The deciding place moves by one with a common first character
  lemma LessBehind(a: string, b: string)
    requires a != [] && b != [] && a[0] == b[0]
    ensures (exists n | 0 <= n <= |a| && n < |b| :: a[..n] == b[..n] && (n == |a| || a[n] < b[n]))
       <==> (exists n | 0 <= n <= |a| - 1 && n < |b| - 1 :: a[1..][..n] == b[1..][..n] && (n == |a| - 1 || a[1..][n] < b[1..][n]))
  {
    forall n | 0 < n <= |a| && n <= |b|
      ensures a[..n] == b[..n] <==> a[1..][..n-1] == b[1..][..n-1]
    {
      assert a[..n] == [a[0]] + a[1..][..n-1] && b[..n] == [b[0]] + b[1..][..n-1];
      assert a[..n][1..] == a[1..][..n-1] && b[..n][1..] == b[1..][..n-1];
    }
    if n :| 0 <= n <= |a| - 1 && n < |b| - 1 && a[1..][..n] == b[1..][..n] && (n == |a| - 1 || a[1..][n] < b[1..][n]) {
      assert a[..n+1] == b[..n+1];
    }
    if n :| 0 <= n <= |a| && n < |b| && a[..n] == b[..n] && (n == |a| || a[n] < b[n]) {
      assert a[1..][..n-1] == b[1..][..n-1];
    }
  }
}
