/** Schoolbook multiplication of word vectors (multiply32). */
module Schoolbook {
  import opened Words

  /** A product of two words is at most (BASE - 1)^2. */
  lemma WordProductBound(x: Word, y: Word)
    ensures x * y <= (BASE - 1) * (BASE - 1)
  {
    MulMono(x, y, BASE - 1);
    MulMono(BASE - 1, x, BASE - 1);
    assert x * (BASE - 1) == (BASE - 1) * x;
  }

  /** One column of multiply32: x * y plus the word already stored plus the carry, in a 64-bit
      accumulator. The accumulator never exceeds BASE^2 - 1, so it does not overflow and its
      high half, the next carry, is again a word. The result is the low and the high word. */
  function MulColumn(x: Word, y: Word, z: Word, carry: Word): (r: (Word, Word))
    ensures x * y + z + carry < BASE * BASE
    ensures r.0 + BASE * r.1 == x * y + z + carry
  {
    WordProductBound(x, y);
    var p := x * y + z + carry;
    (p % BASE, p / BASE)
  }

  /** Arithmetic of one inner step: replacing the stored word o by the column's low word and
      passing the high word on at the next weight adds x * y at weight BASE^(i+j). */
  lemma MulArith(v: int, p: int, pi: int, pj: int, r: int, vb: int, x: int, y: int, o: int,
                 carry: int, lo: int, hi: int)
    requires p == pi * pj
    requires lo + BASE * hi == x * y + o + carry
    requires v + carry * p == r + x * vb * pi
    ensures v + (lo - o) * p + hi * (BASE * p) == r + x * (vb + y * pj) * pi
  {
    calc {
      v + (lo - o) * p + hi * (BASE * p);
      v + (lo + BASE * hi) * p - o * p;
      v + (x * y + o + carry) * p - o * p;
      v + carry * p + (x * y) * p;
      r + x * vb * pi + (x * y) * (pi * pj);
      r + x * (vb + y * pj) * pi;
    }
  }

  /** One pass of the inner loop keeps its invariant: the buffer plus the carry at weight
      BASE^(i+j) is a[..i] * b plus a[i] * b[..j] at weight BASE^i. */
  lemma {:induction false} MulStep(w: seq<Word>, a: seq<Word>, b: seq<Word>, i: nat, j: nat, carry: Word,
                r: (Word, Word))
    requires i < |a| && j < |b| && i + j < |w|
    requires r.0 + BASE * r.1 == a[i] * b[j] + w[i + j] + carry
    requires Val(w) + carry * Pow(i + j) == Val(a[..i]) * Val(b) + a[i] * Val(b[..j]) * Pow(i)
    ensures Val(w[i + j := r.0]) + r.1 * Pow(i + (j + 1))
         == Val(a[..i]) * Val(b) + a[i] * Val(b[..j + 1]) * Pow(i)
  {
    var p := Pow(i + j);
    assert Val(w[i + j := r.0]) == Val(w) + (r.0 - w[i + j]) * p by {
      ValUpdate(w, i + j, r.0);
    }
    assert Val(b[..j + 1]) == Val(b[..j]) + b[j] * Pow(j) by {
      ValPrefixStep(b, j);
    }
    assert p == Pow(i) * Pow(j) by {
      PowAdd(i, j);
    }
    MulArith(Val(w), p, Pow(i), Pow(j), Val(a[..i]) * Val(b), Val(b[..j]), a[i], b[j], w[i + j],
             carry, r.0, r.1);
    assert Pow(i + (j + 1)) == BASE * p;
  }

  /** Arithmetic of the end of one row: a[..i] * b plus a[i] * b at weight BASE^i is
      a[..i+1] * b. */
  lemma RowArith(v: int, r: int, vb: int, x: int, pi: int, vi: int, vi1: int)
    requires vi1 == vi + x * pi
    requires r == vi * vb
    requires v == r + x * vb * pi
    ensures v == vi1 * vb
  {
    calc {
      vi1 * vb;
      (vi + x * pi) * vb;
      vi * vb + (x * pi) * vb;
      r + x * vb * pi;
    }
  }

  /** Finishing row i: the carry is stored in word i + wb, which is still zero, and the buffer
      then holds a[..i+1] * b. */
  lemma {:induction false} RowStep(w: seq<Word>, a: seq<Word>, b: seq<Word>, i: nat, carry: Word)
    requires i < |a| && i + |b| < |w|
    requires w[i + |b|] == 0
    requires Val(w) + carry * Pow(i + |b|) == Val(a[..i]) * Val(b) + a[i] * Val(b[..|b|]) * Pow(i)
    ensures Val(w[i + |b| := carry]) == Val(a[..i + 1]) * Val(b)
  {
    ValUpdate(w, i + |b|, carry);
    assert b[..|b|] == b;
    ValPrefixStep(a, i);
    RowArith(Val(w[i + |b| := carry]), Val(a[..i]) * Val(b), Val(b), a[i], Pow(i), Val(a[..i]),
             Val(a[..i + 1]));
  }

  /** Row i of multiply32: add a[i] * b into the buffer at word i, then store the final carry
      in word i + wb. */
  method MulRow(a: seq<Word>, b: seq<Word>, w: seq<Word>, i: nat) returns (w': seq<Word>)
    requires i < |a| && |w| == |a| + |b|
    requires Val(w) == Val(a[..i]) * Val(b)
    requires forall k :: i + |b| <= k < |w| ==> w[k] == 0
    ensures |w'| == |w|
    ensures Val(w') == Val(a[..i + 1]) * Val(b)
    ensures forall k :: i + 1 + |b| <= k < |w'| ==> w'[k] == 0
  {
    w' := w;
    var carry: Word := 0;
    var j := 0;
    while j < |b|
      invariant 0 <= j <= |b| && |w'| == |w|
      invariant forall k :: i + |b| <= k < |w'| ==> w'[k] == 0
      invariant Val(w') + carry * Pow(i + j) == Val(a[..i]) * Val(b) + a[i] * Val(b[..j]) * Pow(i)
    {
      var r := MulColumn(a[i], b[j], w'[i + j], carry);
      MulStep(w', a, b, i, j, carry, r);
      w' := w'[i + j := r.0];
      carry := r.1;
      j := j + 1;
    }
    RowStep(w', a, b, i, carry);
    w' := w'[i + |b| := carry];
  }

  /** multiply32: clear the first wa + wb words of c, then for every word of a add its product
      with b one row further up. The product always takes wa + wb words, and the rest of the
      buffer is untouched. */
  method Multiply32(a: seq<Word>, b: seq<Word>, c: seq<Word>) returns (c': seq<Word>, wc: nat)
    requires |a| + |b| <= |c|
    ensures wc == |a| + |b| && |c'| == |c|
    ensures Val(c'[..wc]) == Val(a) * Val(b)
    ensures c'[wc..] == c[wc..]
  {
    wc := |a| + |b|;
    var w := Zeros(wc);
    ValZeros(wc);
    var i := 0;
    while i < |a|
      invariant 0 <= i <= |a| && |w| == wc
      invariant Val(w) == Val(a[..i]) * Val(b)
      invariant forall k :: i + |b| <= k < |w| ==> w[k] == 0
    {
      w := MulRow(a, b, w, i);
      i := i + 1;
    }
    assert a[..|a|] == a;
    c' := w + c[wc..];
    assert c'[..wc] == w;
  }
}
