// Shared vocabulary of the model: bytes, optional values, Python's integer
// conversions, and the order-preserving de-duplication that several
// controllers perform on bulb names.

module Common {

  /** A value Python's `bytes(...)` accepts as one element. */
  type byte = x: int | 0 <= x < 256

  datatype Option<T> = None | Some(value: T)

  /** Python's `sum(data)` over a list of ints. */
  function Sum(s: seq<int>): int
  {
    if s == [] then 0 else Sum(s[..|s| - 1]) + s[|s| - 1]
  }

  lemma {:induction false} SumAppend(s: seq<int>, x: int)
    ensures Sum(s + [x]) == Sum(s) + x
  {
    assert (s + [x])[..|s + [x]| - 1] == s;
  }

  /** Each prefix sum extends the one before it (used to evaluate `Sum` on a
      literal frame, one element at a time). */
  lemma SumStep(s: seq<int>, k: nat)
    requires k < |s|
    ensures Sum(s[..k + 1]) == Sum(s[..k]) + s[k]
  {
    assert s[..k + 1][..k] == s[..k];
  }

  /** Changing one element by `d` changes the sum by exactly `d`. */
  lemma {:induction false} SumUpdate(s: seq<int>, i: nat, x: int)
    requires i < |s|
    ensures Sum(s[i := x]) == Sum(s) - s[i] + x
  {
    var n := |s| - 1;
    if i == n {
      assert s[i := x][..n] == s[..n];
    } else {
      assert s[i := x][..n] == s[..n][i := x];
      SumUpdate(s[..n], i, x);
    }
  }

  /** Every element is something `bytes(...)` accepts. */
  predicate AllBytes(s: seq<int>)
  {
    forall i | 0 <= i < |s| :: 0 <= s[i] < 256
  }

  /** Python's `int(a / b)` for an int `a` and a positive int `b`: true
      division followed by truncation toward zero. For the magnitudes the
      controllers use (|a| far below 2^53) the float quotient never crosses
      an integer, so this is exact. */
  function TruncDiv(a: int, b: int): (q: int)
    requires b > 0
    ensures a >= 0 ==> q >= 0
    ensures a <= 0 ==> q <= 0
  {
    if a >= 0 then a / b else -((-a) / b)
  }

  /** Python's `int(x)` on a float, over exact reals: truncation toward zero. */
  function Trunc(x: real): (n: int)
    ensures x >= 0.0 ==> n as real <= x < n as real + 1.0
    ensures x < 0.0 ==> n as real - 1.0 < x <= n as real
  {
    if x >= 0.0 then x.Floor else -((-x).Floor)
  }

  /** Truncation is monotone. */
  lemma TruncMonotone(x: real, y: real)
    requires x <= y
    ensures Trunc(x) <= Trunc(y)
  {
  }

  /** Truncation keeps a whole number. */
  lemma TruncOfInt(n: int)
    ensures Trunc(n as real) == n
  {
  }

  /** Python's `max(0, min(hi, x))`. */
  function Clamp(x: int, hi: int): (c: int)
    requires 0 <= hi
    ensures 0 <= c <= hi
    ensures 0 <= x <= hi ==> c == x
  {
    if x < 0 then 0 else if x > hi then hi else x
  }

  function Max3(a: int, b: int, c: int): (m: int)
    ensures m >= a && m >= b && m >= c
    ensures m == a || m == b || m == c
  {
    if a >= b && a >= c then a else if b >= c then b else c
  }

  predicate NoDup<T(==)>(s: seq<T>)
  {
    forall i, j | 0 <= i < j < |s| :: s[i] != s[j]
  }

  /** Position of the first occurrence of `x` in `s`. */
  function FirstIndex<T(==)>(s: seq<T>, x: T): (k: nat)
    requires x in s
    ensures k < |s| && s[k] == x
    ensures forall j | 0 <= j < k :: s[j] != x
  {
    if s[0] == x then 0 else 1 + FirstIndex(s[1..], x)
  }

  /** The loop `if x not in seen: seen.add(x); out.append(x)` over `s`:
      each element at its first occurrence, in order. */
  function Dedup<T(==)>(s: seq<T>): seq<T>
  {
    if s == [] then []
    else
      var init := s[..|s| - 1];
      if s[|s| - 1] in init then Dedup(init) else Dedup(init) + [s[|s| - 1]]
  }

  lemma {:induction false} DedupAppend<T>(s: seq<T>, x: T)
    ensures Dedup(s + [x]) == if x in s then Dedup(s) else Dedup(s) + [x]
  {
    assert (s + [x])[..|s + [x]| - 1] == s;
  }

  /** De-duplication keeps exactly the elements of its input, each once. */
  lemma {:induction false} DedupElements<T>(s: seq<T>)
    ensures NoDup(Dedup(s))
    ensures forall x :: x in Dedup(s) ==> x in s
    ensures forall x :: x in s ==> x in Dedup(s)
  {
    if s != [] {
      var init := s[..|s| - 1];
      DedupElements(init);
      assert s == init + [s[|s| - 1]];
    }
  }

  lemma {:induction false} FirstIndexPrefix<T>(s: seq<T>, x: T, y: T)
    requires x in s
    ensures FirstIndex(s + [y], x) == FirstIndex(s, x)
  {
    if s[0] != x {
      assert (s + [y])[1..] == s[1..] + [y];
      FirstIndexPrefix(s[1..], x, y);
    }
  }

  /** De-duplication lists the elements in the order of their first
      occurrence in the input. */
  lemma {:induction false} DedupFirstOccurrenceOrder<T>(s: seq<T>)
    ensures forall i, j | 0 <= i < j < |Dedup(s)| ::
      Dedup(s)[i] in s && Dedup(s)[j] in s &&
      FirstIndex(s, Dedup(s)[i]) < FirstIndex(s, Dedup(s)[j])
  {
    if s != [] {
      var init, y := s[..|s| - 1], s[|s| - 1];
      assert s == init + [y];
      DedupFirstOccurrenceOrder(init);
      DedupElements(init);
      var d := Dedup(init);
      forall x | x in init ensures FirstIndex(s, x) == FirstIndex(init, x) {
        FirstIndexPrefix(init, x, y);
      }
      if y !in init {
        assert FirstIndex(s, y) == |s| - 1;
        forall i | 0 <= i < |d| ensures d[i] in init && FirstIndex(s, d[i]) < |s| - 1 {
          assert d[i] in d;
          assert FirstIndex(s, d[i]) == FirstIndex(init, d[i]) < |init|;
        }
      }
    }
  }
}
