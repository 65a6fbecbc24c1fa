/** Karatsuba multiplication (karatsuba32), the size-based dispatcher (decide) that recurses
    through it, and the entry point (Product32). */
module Multiplication {
  import opened Words
  import opened Addition
  import opened Subtraction
  import opened Schoolbook

  /** The crossover word length: operands shorter than this are multiplied by schoolbook
      multiplication. */
  const THRESHOLD: nat := 27

  /** How decide multiplies two operands of the given word lengths. */
  datatype Strategy = Empty | Basecase | Karatsuba

  /** The dispatch rule of decide: an empty operand gives the empty product, an operand
      shorter than THRESHOLD words selects schoolbook multiplication, and otherwise Karatsuba. */
  function Choose(wa: nat, wb: nat): (s: Strategy)
    ensures s == Empty <==> wa == 0 || wb == 0
    ensures s == Karatsuba <==> wa >= THRESHOLD && wb >= THRESHOLD
    ensures s == Basecase <==> 0 < wa && 0 < wb && (wa < THRESHOLD || wb < THRESHOLD)
  {
    if wb == 0 || wa == 0 then Empty
    else if wa < THRESHOLD || wb < THRESHOLD then Basecase
    else Karatsuba
  }

  /** The split point of karatsuba32: half the shorter operand, rounded down, so that the low
      parts u2 and v2 have n words each and the high parts keep at least n words. */
  function SplitPoint(wa: nat, wb: nat): (n: nat)
    ensures 2 * n <= Min(wa, wb) < 2 * n + 2
  {
    if wa < wb then wa / 2 else wb / 2
  }

  /** A product of two values below their bounds is below the product of the bounds. */
  lemma {:induction false} ProductBound(x: nat, xs: nat, y: nat, ys: nat)
    requires x < xs && y < ys
    ensures x * y < xs * ys
  {
    MulMono(x, y, ys);
    assert xs * ys - x * ys == (xs - x) * ys;
    MulMono(ys, 1, xs - x);
    assert ys * (xs - x) == (xs - x) * ys;
  }

  /** Dividing an inequality by a positive factor: q * s + l < q * m with l >= 0 gives s < m. */
  lemma DivBound(q: int, l: int, s: int, m: int)
    requires q > 0 && l >= 0
    requires q * s + l < q * m
    ensures s < m
  {
    if s >= m {
      MulMono(q, m, s);
    }
  }

  /** The identity behind Karatsuba's method for x = x2 + p * x1 and y = y2 + p * y1: the middle
      coefficient x1 * y2 + x2 * y1 is (x1 + x2) * (y1 + y2) - x1 * y1 - x2 * y2. */
  lemma KaratsubaIdentity(x1: int, x2: int, y1: int, y2: int, p: int)
    ensures (x2 + p * x1) * (y2 + p * y1)
         == x2 * y2 + p * ((x1 + x2) * (y1 + y2) - x1 * y1 - x2 * y2) + (p * p) * (x1 * y1)
  {
    calc {
      (x2 + p * x1) * (y2 + p * y1);
      x2 * y2 + p * (x1 * y2) + p * (x2 * y1) + (p * p) * (x1 * y1);
      { assert (x1 + x2) * (y1 + y2) - x1 * y1 - x2 * y2 == x1 * y2 + x2 * y1; }
      x2 * y2 + p * ((x1 + x2) * (y1 + y2) - x1 * y1 - x2 * y2) + (p * p) * (x1 * y1);
    }
  }

  /** The cross term of Karatsuba's method is never negative, so the subtraction of step 6
      never underflows. */
  lemma {:induction false} CrossTermNonNegative(t1: nat, t2: nat, x1: nat, x2: nat, y1: nat,
                                                y2: nat)
    requires t1 == x1 + x2 && t2 == y1 + y2
    ensures t1 * t2 >= x1 * y1 + x2 * y2
  {
    assert (x1 + x2) * (y1 + y2) == x1 * y1 + x2 * y2 + x1 * y2 + x2 * y1;
  }

  /** The words from k on agree, so the words from any later m on agree too. */
  lemma {:induction false} SuffixAgrees(x: seq<Word>, y: seq<Word>, k: nat, m: nat)
    requires k <= m <= |x| == |y|
    requires x[k..] == y[k..]
    ensures x[m..] == y[m..]
  {
    assert x[m..] == x[k..][m - k..];
    assert y[m..] == y[k..][m - k..];
  }

  /** Steps 1 and 2 of karatsuba32: the sum of a high part and a low part of one operand, in a
      cleared buffer with room for one carry word. */
  method HalfSum(hi: seq<Word>, lo: seq<Word>) returns (t: seq<Word>)
    requires |lo| <= |hi|
    ensures |hi| <= |t| <= |hi| + 1
    ensures Val(t) == Val(hi) + Val(lo)
  {
    var buf, wt := Add32(Separate(hi), Separate(lo), Zeros(|hi| + 1), 0);
    t := buf[..wt];
    assert buf[0..0 + wt] == t;
  }

  /** Step 6 of karatsuba32: w3 - w2 - w4, passing the longer of w2 and w4 as the first
      subtrahend as subtract32 requires. */
  method CrossTerm(w3: seq<Word>, w2: seq<Word>, w4: seq<Word>) returns (m: seq<Word>)
    requires |w2| <= |w3| && |w4| <= |w3|
    requires Val(w3) >= Val(w2) + Val(w4)
    ensures |m| == |w3|
    ensures Val(m) == Val(w3) - Val(w2) - Val(w4)
  {
    var wm;
    if |w2| > |w4| {
      m, wm := Subtract32(w3, w2, w4);
    } else {
      m, wm := Subtract32(w3, w4, w2);
    }
  }

  /** Arithmetic of the layout after step 8: splitting the low n + ww3 words at n and at 2n. */
  lemma LayoutArith(low: int, l: int, h: int, v3: int, m8: int, top8: int, lo8: int, hi: int,
                    pn: int, p2n: int)
    requires low == l + pn * h
    requires top8 == l + pn * m8
    requires m8 == v3 + h
    requires top8 == lo8 + p2n * hi
    ensures lo8 + p2n * hi == low + pn * v3
  {
    assert pn * m8 == pn * v3 + pn * h;
  }

  /** After step 8, which adds w3 to the high half of w4 in place at word n, the destination's
      low 2n words together with its words from 2n to n + ww3 at weight BASE^(2n) are
      w4 + w3 * BASE^n. */
  lemma {:induction false} StepEightLayout(c: seq<Word>, c8: seq<Word>, w3: seq<Word>, n: nat, ww3: nat)
    requires 2 * n <= n + ww3 <= |c| == |c8|
    requires c8[..n] == c[..n]
    requires Val(c8[n..n + ww3]) == Val(w3) + Val(c[n..n + (2 * n - n)])
    ensures Val(c8[..2 * n]) + Pow(2 * n) * Val(c8[2 * n..2 * n + (ww3 - n)])
         == Val(c[..2 * n]) + Pow(n) * Val(w3)
  {
    var top := n + ww3;
    assert c8[2 * n..2 * n + (ww3 - n)] == c8[2 * n..top];
    assert c[n..n + (2 * n - n)] == c[n..2 * n];
    ValWindow(c, n, 2 * n);
    ValWindow(c8, n, top);
    ValWindow(c8, 2 * n, top);
    LayoutArith(Val(c[..2 * n]), Val(c[..n]), Val(c[n..2 * n]), Val(w3), Val(c8[n..top]),
                Val(c8[..top]), Val(c8[..2 * n]), Val(c8[2 * n..top]), Pow(n), Pow(2 * n));
  }

  /** Arithmetic of the carry argument of step 9: a total below BASE^(2n) * pw leaves w2 plus
      the high words below pw. */
  lemma NoCarryArith(low: int, v3: int, v2: int, hi: int, lo8: int, pn: int, p2n: int, pw: int)
    requires lo8 + p2n * hi == low + pn * v3
    requires lo8 >= 0 && p2n > 0
    requires low + pn * v3 + p2n * v2 < p2n * pw
    ensures lo8 + p2n * (v2 + hi) == low + pn * v3 + p2n * v2
    ensures v2 + hi < pw
  {
    assert p2n * (v2 + hi) == p2n * v2 + p2n * hi;
    DivBound(p2n, lo8, v2 + hi, pw);
  }

  /** The carry facts of step 8 that step 9 relies on: the words of step 8's sum from 2n on,
      added to w2, stay below BASE^|w2|, so step 9 produces no carry word, and the destination
      then holds w4 + w3 * BASE^n + w2 * BASE^(2n). */
  lemma {:induction false} StepNineFits(c: seq<Word>, c8: seq<Word>, w3: seq<Word>, w2: seq<Word>, n: nat, ww3: nat)
    requires 2 * n <= n + ww3 <= |c| == |c8|
    requires c8[..n] == c[..n]
    requires Val(c8[n..n + ww3]) == Val(w3) + Val(c[n..n + (2 * n - n)])
    requires Val(c[..2 * n]) + Pow(n) * Val(w3) + Pow(2 * n) * Val(w2) < Pow(2 * n + |w2|)
    ensures Val(c8[..2 * n]) + Pow(2 * n) * (Val(w2) + Val(c8[2 * n..2 * n + (ww3 - n)]))
         == Val(c[..2 * n]) + Pow(n) * Val(w3) + Pow(2 * n) * Val(w2)
    ensures Val(w2) + Val(c8[2 * n..2 * n + (ww3 - n)]) < Pow(|w2|)
  {
    var hi := Val(c8[2 * n..2 * n + (ww3 - n)]);
    var low, lo8 := Val(c[..2 * n]), Val(c8[..2 * n]);
    assert lo8 + Pow(2 * n) * hi == low + Pow(n) * Val(w3) by {
      StepEightLayout(c, c8, w3, n, ww3);
    }
    assert Pow(2 * n + |w2|) == Pow(2 * n) * Pow(|w2|) by {
      PowAdd(2 * n, |w2|);
    }
    NoCarryArith(low, Val(w3), Val(w2), hi, lo8, Pow(n), Pow(2 * n), Pow(|w2|));
  }

  /** After step 9, which writes from word 2n on, the low 2n words are those of step 8 and the
      words from 2n on carry the weight BASE^(2n). */
  lemma {:induction false} StepNineLayout(c8: seq<Word>, c9: seq<Word>, n: nat, wc: nat, v: int)
    requires 2 * n <= wc <= |c9| == |c8|
    requires c9[..2 * n] == c8[..2 * n]
    requires Val(c9[2 * n..wc]) == v
    ensures Val(c9[..wc]) == Val(c8[..2 * n]) + Pow(2 * n) * v
  {
    ValWindow(c9, 2 * n, wc);
  }

  /** Steps 7 and 8 of karatsuba32: c = w4 + n words, and w3 + c is written in place from
      word n, reading the high half of w4 before overwriting it. */
  method StepEight(w3: seq<Word>, c: seq<Word>, n: nat, ww4: nat) returns (c8: seq<Word>, ww3: nat)
    requires ww4 == 2 * n <= |w3|
    requires n + |w3| + 1 <= |c|
    ensures |c8| == |c| && |w3| <= ww3 <= |w3| + 1 && n + ww3 <= |c|
    ensures c8[..n] == c[..n]
    ensures c8[n + ww3..] == c[n + ww3..]
    ensures Val(c8[n..n + ww3]) == Val(w3) + Val(c[n..n + (2 * n - n)])
  {
    c8, ww3 := Add32(Separate(w3), InPlace(ww4 - n), c, n);
  }

  /** Step 9 of karatsuba32: w2 plus the words of step 8's sum from 2n on, written in place from
      word 2n. When the sum fits in |w2| words it takes exactly that many and no carry word is
      written. */
  method StepNine(w2: seq<Word>, c8: seq<Word>, n: nat, ww3: nat) returns (c9: seq<Word>, ww2: nat)
    requires n <= ww3 <= n + |w2|
    requires 2 * n + |w2| <= |c8|
    requires Val(w2) + Val(c8[2 * n..2 * n + (ww3 - n)]) < Pow(|w2|)
    ensures ww2 == |w2| && |c9| == |c8|
    ensures c9[..2 * n] == c8[..2 * n]
    ensures c9[2 * n + ww2..] == c8[2 * n + ww2..]
    ensures Val(c9[2 * n..2 * n + ww2]) == Val(w2) + Val(c8[2 * n..2 * n + (ww3 - n)])
  {
    assert Max(|w2|, ww3 - n) == |w2|;
    c9, ww2 := Add32(Separate(w2), InPlace(ww3 - n), c8, 2 * n);
  }

  /** Steps 7 to 9 of karatsuba32: with w4 = u2 * v2 in the low 2n words of the destination,
      add the cross term w3 in place at word n, then w2 in place at word 2n. The destination then
      holds w4 + w3 * BASE^n + w2 * BASE^(2n) on exactly 2n + |w2| words. */
  method Assemble(w3: seq<Word>, w2: seq<Word>, c: seq<Word>, n: nat, ww4: nat)
    returns (c': seq<Word>, wc: nat)
    requires 3 <= n && ww4 == 2 * n
    requires 2 * n <= |w3| <= |w2| + 2
    requires 2 * n + |w2| <= |c|
    requires Val(c[..2 * n]) + Pow(n) * Val(w3) + Pow(2 * n) * Val(w2) < Pow(2 * n + |w2|)
    ensures wc == 2 * n + |w2| && |c'| == |c|
    ensures Val(c'[..wc]) == Val(c[..2 * n]) + Pow(n) * Val(w3) + Pow(2 * n) * Val(w2)
    ensures c'[wc..] == c[wc..]
  {
    var c8, ww3 := StepEight(w3, c, n, ww4);
    StepNineFits(c, c8, w3, w2, n, ww3);
    var ww2;
    c', ww2 := StepNine(w2, c8, n, ww3);
    wc := 3 * n + (ww2 - n);
    StepNineLayout(c8, c', n, wc, Val(w2) + Val(c8[2 * n..2 * n + (ww3 - n)]));
    SuffixAgrees(c8, c, n + ww3, wc);
  }

  /** The value Assemble builds from the three sub-products is the product a * b, and it is
      below BASE^(2n + |w2|), where |w2| = |a| - n + |b| - n is the width of u1 * v1. */
  lemma {:induction false} AssembledProduct(a: seq<Word>, b: seq<Word>, n: nat, t1: seq<Word>,
                                            t2: seq<Word>, w3: seq<Word>, w2: seq<Word>,
                                            w4: seq<Word>, m: seq<Word>)
    requires n <= |a| && n <= |b| && |w2| == |a| - n + |b| - n
    requires Val(t1) == Val(a[n..]) + Val(a[..n]) && Val(t2) == Val(b[n..]) + Val(b[..n])
    requires Val(w3) == Val(t1) * Val(t2)
    requires Val(w2) == Val(a[n..]) * Val(b[n..]) && Val(w4) == Val(a[..n]) * Val(b[..n])
    requires Val(m) == Val(w3) - Val(w2) - Val(w4)
    ensures Val(w4) + Pow(n) * Val(m) + Pow(2 * n) * Val(w2) == Val(a) * Val(b)
    ensures Val(w4) + Pow(n) * Val(m) + Pow(2 * n) * Val(w2) < Pow(2 * n + |w2|)
  {
    ValSplit(a, n);
    ValSplit(b, n);
    PowAdd(n, n);
    KaratsubaIdentity(Val(a[n..]), Val(a[..n]), Val(b[n..]), Val(b[..n]), Pow(n));
    ValBound(a);
    ValBound(b);
    ProductBound(Val(a), Pow(|a|), Val(b), Pow(|b|));
    PowAdd(|a|, |b|);
    assert 2 * n + |w2| == |a| + |b|;
  }

  /** karatsuba32: split both operands at n, form the three half-size products through decide,
      subtract out the cross term, and assemble the product in the destination. The product
      takes exactly wa + wb words and nothing past them changes. Only ever entered from decide,
      with both operands at least THRESHOLD words long. */
  method Karatsuba32(a: seq<Word>, b: seq<Word>, c: seq<Word>) returns (c': seq<Word>, wc: nat)
    requires |a| >= THRESHOLD && |b| >= THRESHOLD
    requires |a| + |b| <= |c|
    ensures wc == |a| + |b| && |c'| == |c|
    ensures Val(c'[..wc]) == Val(a) * Val(b)
    ensures c'[wc..] == c[wc..]
    decreases |a| + |b|, 0
  {
    var n := SplitPoint(|a|, |b|);
    var u2, u1 := a[..n], a[n..];
    var v2, v1 := b[..n], b[n..];
    // steps 1 and 2
    var t1 := HalfSum(u1, u2);
    var t2 := HalfSum(v1, v2);
    // step 3: w3 = t1 * t2
    var w3buf, ww3 := Decide(t1, t2, Zeros(|t1| + |t2|));
    // step 4: w2 = u1 * v1
    var w2buf, ww2 := Decide(u1, v1, Zeros(|u1| + |v1|));
    // step 5: w4 = u2 * v2, in the low words of the destination
    var c5, ww4 := Decide(u2, v2, c);
    assert ww4 == 2 * n && ww2 == |a| - n + |b| - n;
    var w2, w4 := w2buf[..ww2], c5[..ww4];
    assert w4 == c5[..2 * n];
    // step 6: the cross term
    CrossTermNonNegative(Val(t1), Val(t2), Val(u1), Val(u2), Val(v1), Val(v2));
    var w3 := CrossTerm(w3buf[..ww3], w2, w4);
    AssembledProduct(a, b, n, t1, t2, w3buf[..ww3], w2, w4, w3);
    // steps 7 to 9
    c', wc := Assemble(w3, w2, c5, n, ww4);
    SuffixAgrees(c5, c, 2 * n, wc);
  }

  /** decide: dispatch on the operand lengths. An empty operand leaves the buffer alone and
      gives the empty product; otherwise the product takes exactly wa + wb words, whichever
      algorithm computes it, and nothing past them changes. */
  method Decide(a: seq<Word>, b: seq<Word>, c: seq<Word>) returns (c': seq<Word>, wc: nat)
    requires |a| + |b| <= |c|
    ensures |c'| == |c|
    ensures wc == if |a| == 0 || |b| == 0 then 0 else |a| + |b|
    ensures wc == 0 ==> c' == c
    ensures Val(c'[..wc]) == Val(a) * Val(b)
    ensures c'[wc..] == c[wc..]
    decreases |a| + |b|, 1
  {
    match Choose(|a|, |b|)
    case Empty =>
      c', wc := c, 0;
    case Basecase =>
      c', wc := Multiply32(a, b, c);
    case Karatsuba =>
      c', wc := Karatsuba32(a, b, c);
  }

  /** Product32: clear a destination of wa + wb words and multiply into it. The whole
      destination then holds a * b. */
  method Product32(a: seq<Word>, b: seq<Word>) returns (c: seq<Word>, wc: nat)
    ensures |c| == |a| + |b|
    ensures wc == if |a| == 0 || |b| == 0 then 0 else |a| + |b|
    ensures Val(c) == Val(a) * Val(b)
  {
    var zero := Zeros(|a| + |b|);
    c, wc := Decide(a, b, zero);
    ValSplit(c, wc);
    ValZeros(|a| + |b| - wc);
    assert c[wc..] == Zeros(|a| + |b| - wc);
  }
}
