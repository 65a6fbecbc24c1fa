/** Little-endian vectors of unsigned 32-bit words and the natural number they denote. */
module Words {

  /** The radix 2^32 of one word. */
  const BASE: int := 0x1_0000_0000

  /** An unsigned 32-bit machine word. */
  type Word = x: int | 0 <= x < 0x1_0000_0000

  function Max(x: nat, y: nat): nat { if x < y then y else x }

  function Min(x: nat, y: nat): nat { if x < y then x else y }

  /** BASE raised to the n-th power: the weight of word n. */
  ghost function Pow(n: nat): (r: nat)
    ensures r > 0
  {
    if n == 0 then 1 else BASE * Pow(n - 1)
  }

  /** The value of a word vector, least significant word first: the sum of s[i] * BASE^i. */
  ghost function Val(s: seq<Word>): nat
  {
    if |s| == 0 then 0 else s[0] + BASE * Val(s[1..])
  }

  /** A vector of n zero words, as a freshly cleared buffer holds. */
  function Zeros(n: nat): (r: seq<Word>)
    ensures |r| == n
    ensures forall i :: 0 <= i < n ==> r[i] == 0
  {
    seq(n, _ => 0)
  }

  /** Arithmetic shift right by 32 of a signed 64-bit value: division rounding towards minus
      infinity, which is what Dafny's `/` does for a positive divisor. */
  function Shr32(x: int): (r: int)
    ensures BASE * r <= x < BASE * r + BASE
  {
    x / BASE
  }

  /** Storing a 64-bit value into an unsigned 32-bit word keeps it modulo 2^32. */
  function Trunc32(x: int): (w: Word)
    ensures x == w + BASE * Shr32(x)
  {
    x % BASE
  }

  /** Arithmetic of one column of a ripple-carry or ripple-borrow loop: storing the low word of
      the column sum and passing the high part on at the next weight keeps the partial sum
      equation of the loop. */
  lemma ColumnArith(v: int, p: int, s: int, lo: int, hi: int, carry: int, x: int, y: int, z: int)
    requires s == lo + BASE * hi
    requires s == x + y + z + carry
    ensures v + lo * p + hi * (BASE * p) == (v + carry * p) + x * p + y * p + z * p
  {
    calc {
      lo * p + hi * (BASE * p);
      (lo + BASE * hi) * p;
      s * p;
      x * p + y * p + z * p + carry * p;
    }
  }

  /** Multiplying by a non-negative factor keeps an inequality. */
  lemma MulMono(k: int, y: int, m: int)
    requires k >= 0 && y <= m
    ensures k * y <= k * m
  {
    assert k * m - k * y == k * (m - y);
  }

  lemma {:induction false} PowAdd(i: nat, j: nat)
    ensures Pow(i + j) == Pow(i) * Pow(j)
    decreases i
  {
    if i > 0 {
      PowAdd(i - 1, j);
      calc {
        Pow(i + j);
        BASE * Pow(i - 1 + j);
        BASE * (Pow(i - 1) * Pow(j));
        (BASE * Pow(i - 1)) * Pow(j);
        Pow(i) * Pow(j);
      }
    }
  }

  /** A vector of n words denotes less than BASE^n. */
  lemma {:induction false} ValBound(s: seq<Word>)
    ensures Val(s) < Pow(|s|)
    decreases |s|
  {
    if |s| > 0 {
      ValBound(s[1..]);
    }
  }

  /** Arithmetic of one step of ValAppend: prepending word x to r + p * v. */
  lemma ShiftArith(x: int, r: int, p: int, v: int)
    ensures x + BASE * (r + p * v) == (x + BASE * r) + (BASE * p) * v
  {
  }

  /** The value of a concatenation: the second part is weighted by the first part's width. */
  lemma {:induction false} ValAppend(a: seq<Word>, b: seq<Word>)
    ensures Val(a + b) == Val(a) + Pow(|a|) * Val(b)
    decreases |a|
  {
    if |a| > 0 {
      assert (a + b)[1..] == a[1..] + b;
      ValAppend(a[1..], b);
      assert Val(a + b) == a[0] + BASE * Val(a[1..] + b);
      ShiftArith(a[0], Val(a[1..]), Pow(|a| - 1), Val(b));
    } else {
      assert a + b == b;
    }
  }

  /** Appending one word adds it at weight BASE^|s|. */
  lemma {:induction false} ValPush(s: seq<Word>, w: Word)
    ensures Val(s + [w]) == Val(s) + w * Pow(|s|)
  {
    assert Val([w]) == w by {
      assert [w][1..] == [];
    }
    ValAppend(s, [w]);
    assert Pow(|s|) * Val([w]) == w * Pow(|s|);
  }

  /** Splitting a prefix of s at word i. */
  lemma {:induction false} ValWindow(s: seq<Word>, i: nat, j: nat)
    requires i <= j <= |s|
    ensures Val(s[..j]) == Val(s[..i]) + Pow(i) * Val(s[i..j])
  {
    assert s[..j] == s[..i] + s[i..j];
    ValAppend(s[..i], s[i..j]);
  }

  /** A prefix of i + 1 words adds word i at weight BASE^i. */
  lemma {:induction false} ValPrefixStep(s: seq<Word>, i: nat)
    requires i < |s|
    ensures Val(s[..i + 1]) == Val(s[..i]) + s[i] * Pow(i)
  {
    assert s[..i + 1] == s[..i] + [s[i]];
    ValPush(s[..i], s[i]);
  }

  lemma {:induction false} ValZeros(n: nat)
    ensures Val(Zeros(n)) == 0
  {
    if n > 0 {
      assert Zeros(n)[1..] == Zeros(n - 1);
      ValZeros(n - 1);
    }
  }

  /** A value padded with zero words keeps its value. */
  lemma {:induction false} ValPadded(s: seq<Word>, k: nat)
    ensures Val(s + Zeros(k)) == Val(s)
  {
    ValAppend(s, Zeros(k));
    ValZeros(k);
  }

  /** Overwriting word k changes the value by the difference at weight BASE^k. */
  lemma {:induction false} ValUpdate(s: seq<Word>, k: nat, w: Word)
    requires k < |s|
    ensures Val(s[k := w]) == Val(s) + (w - s[k]) * Pow(k)
  {
    var t := s[k := w];
    assert s == s[..k] + [s[k]] + s[k + 1..];
    assert t == s[..k] + [w] + s[k + 1..];
    ValAppend(s[..k] + [s[k]], s[k + 1..]);
    ValAppend(s[..k] + [w], s[k + 1..]);
    ValPush(s[..k], s[k]);
    ValPush(s[..k], w);
    assert Pow(k + 1) == BASE * Pow(k);
    calc {
      Val(t) - Val(s);
      (Val(s[..k]) + w * Pow(k) + Pow(k + 1) * Val(s[k + 1..]))
        - (Val(s[..k]) + s[k] * Pow(k) + Pow(k + 1) * Val(s[k + 1..]));
      w * Pow(k) - s[k] * Pow(k);
      (w - s[k]) * Pow(k);
    }
  }

  /** A low word and the value above it are determined by x + BASE * r. */
  lemma DigitUnique(x: Word, r: int, y: Word, s: int)
    requires x + BASE * r == y + BASE * s
    ensures x == y && r == s
  {
  }

  /** Two vectors of the same width with the same value are the same words: the
      representation of a value at a given width is unique. */
  lemma {:induction false} ValInjective(a: seq<Word>, b: seq<Word>)
    requires |a| == |b|
    requires Val(a) == Val(b)
    ensures a == b
    decreases |a|
  {
    if |a| > 0 {
      DigitUnique(a[0], Val(a[1..]), b[0], Val(b[1..]));
      ValInjective(a[1..], b[1..]);
      assert a == [a[0]] + a[1..];
      assert b == [b[0]] + b[1..];
    }
  }

  /** Word i of v, or 0 past its end: the word a shorter operand contributes to column i. */
  function WordAt(v: seq<Word>, i: nat): (w: Word)
    ensures i < |v| ==> w == v[i]
    ensures i >= |v| ==> w == 0
  {
    if i < |v| then v[i] else 0
  }

  /** Cutting v to i + 1 of its words adds WordAt(v, i) at weight BASE^i. */
  lemma {:induction false} CutStep(v: seq<Word>, i: nat)
    ensures Val(v[..Min(i + 1, |v|)]) == Val(v[..Min(i, |v|)]) + WordAt(v, i) * Pow(i)
  {
    if i < |v| {
      assert Min(i + 1, |v|) == i + 1 && Min(i, |v|) == i;
      ValPrefixStep(v, i);
    } else {
      assert Min(i + 1, |v|) == Min(i, |v|);
    }
  }

  /** A word vector is its low n words followed by the rest. */
  lemma {:induction false} ValSplit(s: seq<Word>, n: nat)
    requires n <= |s|
    ensures Val(s) == Val(s[..n]) + Pow(n) * Val(s[n..])
  {
    assert s == s[..n] + s[n..];
    ValAppend(s[..n], s[n..]);
  }
}
