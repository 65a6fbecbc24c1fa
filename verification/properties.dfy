/** Properties that relate several calls of the engine: the order of add32's operands, an
    in-place operand against a copy of it, subtraction undoing addition, and Karatsuba against
    schoolbook multiplication. */
module Properties {
  import opened Words
  import opened Addition
  import opened Subtraction
  import opened Schoolbook
  import opened Multiplication

  /** Two buffers that agree with c outside the window [off, off + w) and whose windows have the
      same value are the same buffer. */
  lemma {:induction false} SameWindowSame(c: seq<Word>, c1: seq<Word>, c2: seq<Word>, off: nat,
                                          w: nat)
    requires |c1| == |c| && |c2| == |c| && off + w <= |c|
    requires c1[..off] == c[..off] && c2[..off] == c[..off]
    requires c1[off + w..] == c[off + w..] && c2[off + w..] == c[off + w..]
    requires Val(c1[off..off + w]) == Val(c2[off..off + w])
    ensures c1 == c2
  {
    ValInjective(c1[off..off + w], c2[off..off + w]);
    assert c1 == c1[..off] + c1[off..off + w] + c1[off + w..];
    assert c2 == c2[..off] + c2[off..off + w] + c2[off + w..];
  }

  /** add32 is symmetric: adding b to a writes exactly the same words, and reports the same
      length, as adding a to b. */
  method AddSymmetric(a: Operand, b: Operand, c: seq<Word>, off: nat)
    returns (c1: seq<Word>, wc1: nat, c2: seq<Word>, wc2: nat)
    requires Fits(a, c, off) && Fits(b, c, off)
    requires off + Max(Width(a), Width(b))
               + (if CarriesOut(Contents(a, c, off), Contents(b, c, off)) then 1 else 0) <= |c|
    ensures wc1 == wc2 && c1 == c2
  {
    c1, wc1 := Add32(a, b, c, off);
    assert Max(Width(b), Width(a)) == Max(Width(a), Width(b));
    c2, wc2 := Add32(b, a, c, off);
    SameWindowSame(c, c1, c2, off, wc1);
  }

  /** An in-place operand of add32, the destination's own words at the sum's offset, gives the
      same result as a separate copy of those words: reading each word before writing it makes
      the overlap harmless. */
  method InPlaceAgrees(w: seq<Word>, len: nat, c: seq<Word>, off: nat)
    returns (c1: seq<Word>, wc1: nat, c2: seq<Word>, wc2: nat)
    requires off + len <= |c|
    requires off + Max(|w|, len) + (if CarriesOut(w, c[off..off + len]) then 1 else 0) <= |c|
    ensures wc1 == wc2 && c1 == c2
  {
    c1, wc1 := Add32(Separate(w), InPlace(len), c, off);
    c2, wc2 := Add32(Separate(w), Separate(c[off..off + len]), c, off);
    SameWindowSame(c, c1, c2, off, wc1);
  }

  /** subtract32 undoes add32: subtracting x from x + y (with an empty third operand) gives back
      the words of y, padded with zero words to the sum's width, whichever operand is wider. */
  method SubtractUndoesAdd(x: seq<Word>, y: seq<Word>) returns (s: seq<Word>, d: seq<Word>)
    ensures Val(s) == Val(x) + Val(y)
    ensures |d| == |s| && |y| <= |d| && d == y + Zeros(|d| - |y|)
  {
    var buf, ws := Add32(Separate(x), Separate(y), Zeros(Max(|x|, |y|) + 1), 0);
    s := buf[..ws];
    assert buf[0..0 + ws] == s;
    var wd;
    d, wd := Subtract32(s, x, []);
    ValPadded(y, |d| - |y|);
    ValInjective(d, y + Zeros(|d| - |y|));
  }

  /** The dispatcher agrees with schoolbook multiplication word for word: whichever algorithm
      decide picks, the cleared destination of wa + wb words ends up the same. */
  method ProductAgreesWithSchoolbook(a: seq<Word>, b: seq<Word>)
    returns (c1: seq<Word>, c2: seq<Word>)
    ensures |c1| == |a| + |b| && c1 == c2
  {
    var wc1, wc2;
    c1, wc1 := Product32(a, b);
    c2, wc2 := Multiply32(a, b, Zeros(|a| + |b|));
    assert c2 == c2[..wc2];
    ValInjective(c1, c2);
  }
}
