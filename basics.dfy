/** Two small helpers of python_utils/utils.py: `reverse_string`
    (`s[::-1]`) and the recursive `factorial`. */
module Basics {

  /** `reverse_string`: the characters of `s` in the opposite order. */
  function ReverseString(s: string): (r: string)
    ensures |r| == |s|
    ensures forall k :: 0 <= k < |s| ==> r[k] == s[|s| - 1 - k]
    decreases |s|
  {
    if s == [] then [] else [s[|s| - 1]] + ReverseString(s[..|s| - 1])
  }

  /** Reversing twice gives the string back. */
  lemma ReverseInvolutive(s: string)
    ensures ReverseString(ReverseString(s)) == s
  {
    var r := ReverseString(s);
    var rr := ReverseString(r);
    assert forall k :: 0 <= k < |s| ==> rr[k] == r[|s| - 1 - k] == s[k];
  }

  /** Reversing a concatenation reverses the order of its parts. */
  lemma ReverseConcat(a: string, b: string)
    ensures ReverseString(a + b) == ReverseString(b) + ReverseString(a)
  {
    var l, r := ReverseString(a + b), ReverseString(b) + ReverseString(a);
    forall k | 0 <= k < |a + b| ensures l[k] == r[k] {
      if k < |b| {
        assert l[k] == (a + b)[|a| + |b| - 1 - k] == b[|b| - 1 - k];
      } else {
        assert l[k] == (a + b)[|a| + |b| - 1 - k] == a[|a| + |b| - 1 - k];
      }
    }
  }

  /** Reversing keeps every character and its number of occurrences. */
  lemma {:induction false} ReversePermutes(s: string)
    ensures multiset(ReverseString(s)) == multiset(s)
    decreases |s|
  {
    if s != [] {
      ReversePermutes(s[..|s| - 1]);
      assert s == s[..|s| - 1] + [s[|s| - 1]];
    }
  }

  /** `factorial`: `1` at zero, `n * factorial(n - 1)` above. The source
      never reaches its base case for a negative argument, so the argument
      is a natural number. */
  function Factorial(n: nat): (r: nat)
    ensures r >= 1
    decreases n
  {
    if n == 0 then 1 else n * Factorial(n - 1)
  }

  /** The product `lo * (lo + 1) * ... * hi`, which is 1 when the range is
      empty. */
  function Product(lo: nat, hi: nat): nat
    decreases hi + 1 - lo
  {
    if lo > hi then 1 else lo * Product(lo + 1, hi)
  }

  /** `n! == k! * ((k + 1) * ... * n)` for every `k <= n`; in particular
      `k!` divides `n!`. */
  lemma {:induction false} FactorialSplit(n: nat, k: nat)
    requires k <= n
    ensures Factorial(n) == Factorial(k) * Product(k + 1, n)
    decreases n - k
  {
    if k < n {
      FactorialSplit(n, k + 1);
      var f, p := Factorial(k), Product(k + 2, n);
      calc {
        Factorial(n);
        Factorial(k + 1) * p;
        ((k + 1) * f) * p;
        { MultiplyAssociates(k + 1, f, p); }
        f * ((k + 1) * p);
        f * Product(k + 1, n);
      }
    }
  }

  lemma MultiplyAssociates(a: int, b: int, c: int)
    ensures (a * b) * c == b * (a * c)
  {
  }

  /** The recursive factorial is the product `1 * 2 * ... * n`. */
  lemma FactorialIsProduct(n: nat)
    ensures Factorial(n) == Product(1, n)
  {
    FactorialSplit(n, 0);
  }

  lemma FactorialExample()
    ensures Factorial(5) == 120
  {
  }
}
