/** Three-operand word-vector subtraction c = a - b - d (subtract32), with the borrow carried as
    the arithmetic shift of a signed 64-bit partial sum. */
module Subtraction {
  import opened Words

  /** One column of subtract32: x - y - z plus the incoming borrow in a signed 64-bit
      accumulator. With a borrow of 0, -1 or -2 the partial sum stays in [-2 * BASE, BASE), so
      the next borrow, its arithmetic shift right by 32, is again 0, -1 or -2, and it is negative
      exactly when the partial sum is. */
  function SubColumn(x: Word, y: Word, z: Word, borrow: int): (sum: int)
    requires -2 <= borrow <= 0
    ensures -2 * BASE <= sum < BASE
    ensures -2 <= Shr32(sum) <= 0
    ensures sum < 0 <==> Shr32(sum) < 0
  {
    x - y - z + borrow
  }

  /** What a - b - d comes to on the low i words, with b and d cut to the words they have. */
  ghost function Owed(a: seq<Word>, b: seq<Word>, d: seq<Word>, i: nat): int
    requires i <= |a|
  {
    Val(a[..i]) - Val(b[..Min(i, |b|)]) - Val(d[..Min(i, |d|)])
  }

  /** Arithmetic of one subtraction column, in terms of the column sum's low word and borrow. */
  lemma BorrowArith(v: int, p: int, s: int, lo: int, hi: int, borrow: int, x: int, y: int, z: int,
                    owed: int)
    requires s == lo + BASE * hi
    requires s == x - y - z + borrow
    requires v + borrow * p == owed
    ensures v + lo * p + hi * (BASE * p) == owed + x * p - y * p - z * p
  {
    ColumnArith(v, p, s, lo, hi, borrow, x, -y, -z);
    assert (-y) * p == -(y * p);
    assert (-z) * p == -(z * p);
  }

  /** One column keeps the loop invariant: the words stored so far plus the borrow at weight
      BASE^i are what a - b - d comes to on the low i words. */
  lemma {:induction false} SubStep(a: seq<Word>, b: seq<Word>, d: seq<Word>, c: seq<Word>, i: nat, borrow: int,
                sum: int)
    requires i == |c| < |a|
    requires -2 <= borrow <= 0
    requires sum == a[i] - WordAt(b, i) - WordAt(d, i) + borrow
    requires Val(c) + borrow * Pow(i) == Owed(a, b, d, i)
    ensures Val(c + [Trunc32(sum)]) + Shr32(sum) * Pow(i + 1) == Owed(a, b, d, i + 1)
  {
    var y, z := WordAt(b, i), WordAt(d, i);
    var lo, hi := Trunc32(sum), Shr32(sum);
    var p := Pow(i);
    var v := Val(c);
    var owed := Owed(a, b, d, i);
    assert Owed(a, b, d, i + 1) == owed + a[i] * p - y * p - z * p by {
      ValPrefixStep(a, i);
      CutStep(b, i);
      CutStep(d, i);
    }
    assert Val(c + [lo]) == v + lo * p by {
      ValPush(c, lo);
    }
    BorrowArith(v, p, sum, lo, hi, borrow, a[i], y, z, owed);
    assert Pow(i + 1) == BASE * p;
  }

  /** A borrow left over once all of a has been consumed would make a - b - d negative. */
  lemma BorrowResolved(v: int, p: int, borrow: int, total: int)
    requires 0 <= v < p
    requires -2 <= borrow <= 0
    requires total >= 0
    requires v + borrow * p == total
    ensures borrow == 0
  {
  }

  /** Copying word i of a once the borrow is resolved keeps the invariant. */
  lemma {:induction false} CopyStep(a: seq<Word>, b: seq<Word>, d: seq<Word>, c: seq<Word>, i: nat)
    requires |d| <= |b| <= i == |c| < |a|
    requires Val(c) == Owed(a, b, d, i)
    ensures Val(c + [a[i]]) == Owed(a, b, d, i + 1)
  {
    ValPush(c, a[i]);
    ValPrefixStep(a, i);
    assert b[..Min(i, |b|)] == b[..Min(i + 1, |b|)];
    assert d[..Min(i, |d|)] == d[..Min(i + 1, |d|)];
  }

  /** Over all of a, what is owed is a - b - d. */
  lemma {:induction false} OwedAll(a: seq<Word>, b: seq<Word>, d: seq<Word>)
    requires |d| <= |b| <= |a|
    ensures Owed(a, b, d, |a|) == Val(a) - Val(b) - Val(d)
  {
    assert a[..|a|] == a && b[..Min(|a|, |b|)] == b && d[..Min(|a|, |d|)] == d;
  }

  /** The last loop of subtract32: once no borrow is pending, the remaining words of a are
      copied into c unchanged. */
  method CopyRest(a: seq<Word>, b: seq<Word>, d: seq<Word>, c: seq<Word>, i: nat)
    returns (c': seq<Word>)
    requires |d| <= |b| <= i == |c| <= |a|
    requires Val(c) == Owed(a, b, d, i)
    ensures |c'| == |a| && c'[..i] == c && c'[i..] == a[i..]
    ensures Val(c') == Owed(a, b, d, |a|)
  {
    c' := c;
    var k := i;
    while k < |a|
      invariant i <= k <= |a| && |c'| == k
      invariant c'[..i] == c && c'[i..] == a[i..k]
      invariant Val(c') == Owed(a, b, d, k)
    {
      CopyStep(a, b, d, c', k);
      assert a[i..k + 1] == a[i..k] + [a[k]];
      assert (c' + [a[k]])[..i] == c'[..i] && (c' + [a[k]])[i..] == c'[i..] + [a[k]];
      c' := c' + [a[k]];
      k := k + 1;
    }
  }

  /** One column of subtract32's first three loops: word i of a minus the subtrahends' words y
      and z (0 once an operand has run out) plus the borrow, the arithmetic shift of the previous
      partial sum. The low word is appended to c, and the invariant moves on to column i + 1. */
  method SubtractColumn(a: seq<Word>, b: seq<Word>, d: seq<Word>, c: seq<Word>, i: nat, sum: int,
                        y: Word, z: Word)
    returns (c': seq<Word>, sum': int)
    requires i == |c| < |a|
    requires y == WordAt(b, i) && z == WordAt(d, i)
    requires -2 * BASE <= sum < BASE
    requires Val(c) + Shr32(sum) * Pow(i) == Owed(a, b, d, i)
    ensures |c'| == i + 1 && c'[..i] == c
    ensures -2 * BASE <= sum' < BASE
    ensures Val(c') + Shr32(sum') * Pow(i + 1) == Owed(a, b, d, i + 1)
  {
    var borrow := Shr32(sum);
    sum' := SubColumn(a[i], y, z, borrow);
    SubStep(a, b, d, c, i, borrow, sum');
    c' := c + [Trunc32(sum')];
  }

  /** subtract32: c = a - b - d for lengths wd <= wb <= wa and a result that is not negative.
      Columns below wd subtract both, columns below wb subtract b alone, the borrow is then
      absorbed by the following words of a, and the remaining words of a are copied. The result
      always has wa words. */
  method Subtract32(a: seq<Word>, b: seq<Word>, d: seq<Word>) returns (c: seq<Word>, wc: nat)
    requires |d| <= |b| <= |a|
    requires Val(a) >= Val(b) + Val(d)
    ensures wc == |a| && |c| == wc
    ensures Val(c) == Val(a) - Val(b) - Val(d)
  {
    var sum := 0;
    c := [];
    var i := 0;
    // a - b - d until the end of d
    while i < |d|
      invariant i <= |d| && |c| == i
      invariant -2 * BASE <= sum < BASE
      invariant Val(c) + Shr32(sum) * Pow(i) == Owed(a, b, d, i)
    {
      c, sum := SubtractColumn(a, b, d, c, i, sum, b[i], d[i]);
      i := i + 1;
    }
    // a - b until the end of b
    while i < |b|
      invariant |d| <= i <= |b| && |c| == i
      invariant -2 * BASE <= sum < BASE
      invariant Val(c) + Shr32(sum) * Pow(i) == Owed(a, b, d, i)
    {
      c, sum := SubtractColumn(a, b, d, c, i, sum, b[i], 0);
      i := i + 1;
    }
    // absorb the borrow
    while i < |a| && sum < 0
      invariant |b| <= i <= |a| && |c| == i
      invariant -2 * BASE <= sum < BASE
      invariant Val(c) + Shr32(sum) * Pow(i) == Owed(a, b, d, i)
    {
      c, sum := SubtractColumn(a, b, d, c, i, sum, 0, 0);
      i := i + 1;
    }
    // the borrow chain is resolved: either the partial sum is no longer negative, or all of a
    // has been consumed, where a leftover borrow would make the result negative
    if i == |a| {
      OwedAll(a, b, d);
      ValBound(c);
      BorrowResolved(Val(c), Pow(i), Shr32(sum), Owed(a, b, d, i));
    }
    assert Shr32(sum) == 0;
    assert Val(c) == Owed(a, b, d, i) by {
      assert Shr32(sum) * Pow(i) == 0;
    }
    c := CopyRest(a, b, d, c, i);
    OwedAll(a, b, d);
    wc := |a|;
  }
}
