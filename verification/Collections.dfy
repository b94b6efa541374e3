/** Numbers, sequences and sets, as the other modules use them. */
module Collections {
  function Max(a: int, b: int): int { if a < b then b else a }

  function Digits(i: nat): string {
    if i < 10 then ["0123456789"[i]] else Digits(i / 10) + ["0123456789"[i % 10]]
  }

  lemma DigitsNonempty(i: nat)
    ensures |Digits(i)| > 0
  {
  }

  lemma DigitInjective(i: nat, j: nat)
    requires i < 10 && j < 10 && "0123456789"[i] == "0123456789"[j]
    ensures i == j
  {
  }

  lemma {:induction false} DigitsInjective(i: nat, j: nat)
    ensures Digits(i) == Digits(j) ==> i == j
  {
    if Digits(i) == Digits(j) {
      if i >= 10 && j >= 10 {
        var a, b := Digits(i), Digits(j);
        assert a[..|a| - 1] == Digits(i / 10) && b[..|b| - 1] == Digits(j / 10);
        assert a[|a| - 1] == b[|b| - 1];
        DigitsInjective(i / 10, j / 10);
        DigitInjective(i % 10, j % 10);
      } else if i >= 10 {
        DigitsNonempty(i / 10);
      } else if j >= 10 {
        DigitsNonempty(j / 10);
      } else {
        DigitInjective(i, j);
      }
    }
  }

  predicate Distinct<T(==)>(s: seq<T>) { forall i, j :: 0 <= i < j < |s| ==> s[i] != s[j] }

  lemma SubsetOfSameSize<T>(a: set<T>, b: set<T>)
    requires a <= b
    ensures |a| == |b| <==> a == b
  {
    assert b == a + (b - a);
  }

  /** Taking one element out of a sequence. */
  lemma RemoveOne<T>(b: seq<T>, j: nat)
    requires j < |b|
    ensures b == b[..j] + [b[j]] + b[j + 1..]
    ensures multiset(b[..j] + b[j + 1..]) == multiset(b) - multiset{b[j]}
  {
    assert b == b[..j] + [b[j]] + b[j + 1..];
    assert multiset(b) == multiset(b[..j]) + multiset{b[j]} + multiset(b[j + 1..]);
  }

  lemma Assoc<T>(a: seq<T>, b: seq<T>, c: seq<T>)
    ensures a + b + c == a + (b + c)
  {
  }
}
