/** Ripple-carry addition of word vectors (add32), including the case where one operand is the
    destination region itself. */
module Addition {
  import opened Words

  /** An addend of add32. `Separate` words live in a buffer of their own; `InPlace(len)` is the
      first `len` words of the destination region itself, read from the same offset the sum is
      written to (Karatsuba's steps 8 and 9 pass such an operand). */
  datatype Operand = Separate(words: seq<Word>) | InPlace(len: nat)

  /** The word count of an operand. */
  function Width(o: Operand): nat
  {
    match o
    case Separate(w) => |w|
    case InPlace(n) => n
  }

  /** An in-place operand must lie inside the destination buffer. */
  ghost predicate Fits(o: Operand, c: seq<Word>, off: nat)
  {
    o.InPlace? ==> off + o.len <= |c|
  }

  /** The words an operand denotes when the destination buffer holds `c`. */
  ghost function Contents(o: Operand, c: seq<Word>, off: nat): (r: seq<Word>)
    requires Fits(o, c, off)
    ensures |r| == Width(o)
  {
    match o
    case Separate(w) => w
    case InPlace(n) => c[off..off + n]
  }

  /** Word i of an operand, read from the destination buffer as it is at the time of the read. */
  function Read(o: Operand, c: seq<Word>, off: nat, i: nat): Word
    requires Fits(o, c, off)
    requires i < Width(o)
  {
    match o
    case Separate(w) => w[i]
    case InPlace(_) => c[off + i]
  }

  /** Whether a + b needs one word more than the longer addend. */
  ghost predicate CarriesOut(a: seq<Word>, b: seq<Word>)
  {
    Val(a) + Val(b) >= Pow(Max(|a|, |b|))
  }

  /** Reading word i of an operand from a buffer whose words from off + i on are still those
      of the original buffer gives word i of the original contents. */
  lemma {:induction false} ReadUnwritten(o: Operand, c: seq<Word>, c': seq<Word>, off: nat, i: nat)
    requires Fits(o, c, off)
    requires i < Width(o)
    requires |c'| == |c|
    requires off + i <= |c|
    requires c'[off + i..] == c[off + i..]
    ensures Fits(o, c', off)
    ensures Read(o, c', off, i) == Contents(o, c, off)[i]
  {
    if o.InPlace? {
      assert c'[off + i] == c'[off + i..][0] == c[off + i..][0] == c[off + i];
    }
  }

  /** Writing word i of the window starting at off extends the window's value by that word
      and leaves everything outside position off + i alone. */
  lemma {:induction false} WriteWord(c: seq<Word>, off: nat, i: nat, w: Word)
    requires off + i < |c|
    ensures |c[off + i := w]| == |c|
    ensures c[off + i := w][..off] == c[..off]
    ensures c[off + i := w][off + (i + 1)..] == c[off + (i + 1)..]
    ensures Val(c[off + i := w][off..off + (i + 1)]) == Val(c[off..off + i]) + w * Pow(i)
  {
    var c' := c[off + i := w];
    assert c'[off..off + (i + 1)] == c[off..off + i] + [w];
    ValPush(c[off..off + i], w);
  }

  /** One pass of the main loop keeps its invariant: the window written so far plus the carry
      at weight BASE^i equals the two operands' prefixes of i words. */
  lemma {:induction false} AddStep(L: seq<Word>, S: seq<Word>, c: seq<Word>, off: nat, i: nat, carry: nat, s: int,
                y: Word)
    requires |S| <= |L| && i < |L|
    requires off + i < |c|
    requires y == WordAt(S, i)
    requires s == L[i] + y + carry
    requires Val(c[off..off + i]) + carry * Pow(i) == Val(L[..i]) + Val(S[..Min(i, |S|)])
    ensures Val(c[off + i := s % BASE][off..off + (i + 1)]) + (s / BASE) * Pow(i + 1)
         == Val(L[..i + 1]) + Val(S[..Min(i + 1, |S|)])
  {
    var v := Val(c[off..off + i]);
    var p := Pow(i);
    assert Val(S[..Min(i + 1, |S|)]) == Val(S[..Min(i, |S|)]) + y * p by {
      CutStep(S, i);
    }
    assert Val(L[..i + 1]) == Val(L[..i]) + L[i] * p by {
      ValPrefixStep(L, i);
    }
    assert Val(c[off + i := s % BASE][off..off + (i + 1)]) == v + (s % BASE) * p by {
      WriteWord(c, off, i, s % BASE);
    }
    ColumnArith(v, p, s, s % BASE, s / BASE, carry, L[i], y, 0);
    assert Pow(i + 1) == BASE * p;
  }

  /** The carry out of the word loop is 0 or 1. */
  lemma CarryCases(v: int, p: int, carry: nat, total: int)
    requires carry <= 1
    requires v + carry * p == total
    ensures carry == 0 ==> v == total
    ensures carry == 1 ==> v + p == total
  {
  }

  /** One column of add32's word loop (steps 3 and 4): word i of the longer operand, plus word
      i of the shorter one while it has one, plus the carry. Word i of an in-place operand is
      read before word i of the destination is written. The low word is stored at off + i and
      the rest is the next carry, which is again 0 or 1. */
  method AddColumn(long: Operand, short: Operand, c: seq<Word>, c0: seq<Word>, off: nat, i: nat,
                   carry: nat)
    returns (c1: seq<Word>, carry1: nat)
    requires Width(short) <= Width(long) && i < Width(long)
    requires Fits(long, c, off) && Fits(short, c, off)
    requires off + Width(long) <= |c| && |c0| == |c| && carry <= 1
    requires c0[..off] == c[..off] && c0[off + i..] == c[off + i..]
    requires Val(c0[off..off + i]) + carry * Pow(i)
          == Val(Contents(long, c, off)[..i])
             + Val(Contents(short, c, off)[..Min(i, Width(short))])
    ensures |c1| == |c| && carry1 <= 1
    ensures c1[..off] == c[..off] && c1[off + (i + 1)..] == c[off + (i + 1)..]
    ensures Val(c1[off..off + (i + 1)]) + carry1 * Pow(i + 1)
         == Val(Contents(long, c, off)[..i + 1])
            + Val(Contents(short, c, off)[..Min(i + 1, Width(short))])
  {
    ghost var L := Contents(long, c, off);
    ghost var S := Contents(short, c, off);
    ReadUnwritten(long, c, c0, off, i);
    ghost var y: Word := 0;
    var s: int;
    if i < Width(short) {
      ReadUnwritten(short, c, c0, off, i);
      s := Read(long, c0, off, i) + Read(short, c0, off, i) + carry;
      y := S[i];
    } else {
      s := Read(long, c0, off, i) + carry;
    }
    AddStep(L, S, c0, off, i, carry, s, y);
    WriteWord(c0, off, i, s % BASE);
    c1 := c0[off + i := s % BASE];
    carry1 := s / BASE;
    assert c1[off + (i + 1)..] == c0[off + i..][1..];
  }

  /** The word loop of add32 (steps 2 to 4): for every word of the longer operand, add the
      shorter operand's word while it has one, store the low word and carry the rest. The words
      written so far plus the carry at weight BASE^wl are the sum of the two operands. */
  method AddColumns(long: Operand, short: Operand, c: seq<Word>, off: nat)
    returns (c': seq<Word>, carry: nat)
    requires Width(short) <= Width(long)
    requires Fits(long, c, off) && Fits(short, c, off)
    requires off + Width(long) <= |c|
    ensures |c'| == |c|
    ensures carry <= 1
    ensures c'[..off] == c[..off]
    ensures c'[off + Width(long)..] == c[off + Width(long)..]
    ensures Val(c'[off..off + Width(long)]) + carry * Pow(Width(long))
         == Val(Contents(long, c, off)) + Val(Contents(short, c, off))
  {
    var wl, ws := Width(long), Width(short);
    ghost var L := Contents(long, c, off);
    ghost var S := Contents(short, c, off);
    c' := c;
    carry := 0;
    var i := 0;
    while i < wl
      invariant 0 <= i <= wl
      invariant |c'| == |c|
      invariant carry <= 1
      invariant c'[..off] == c[..off]
      invariant c'[off + i..] == c[off + i..]
      invariant Val(c'[off..off + i]) + carry * Pow(i) == Val(L[..i]) + Val(S[..Min(i, ws)])
    {
      c', carry := AddColumn(long, short, c, c', off, i, carry);
      i := i + 1;
    }
    assert L[..wl] == L && S[..Min(wl, ws)] == S;
  }

  /** The carry loop of add32: a carry of 1 is stored in the word just
      past the sum's window, after which the carry is 0; a carry of 0 stores nothing. The number
      of words stored is the carry itself. */
  method StoreCarry(c: seq<Word>, at: nat, carry: nat) returns (c': seq<Word>, stored: nat)
    requires carry <= 1
    requires carry == 1 ==> at < |c|
    ensures stored == carry
    ensures c' == if carry == 1 then c[at := 1] else c
  {
    c' := c;
    stored := 0;
    var k: nat := carry;
    while k > 0
      invariant k <= 1 && stored + k == carry
      invariant c' == if stored == 1 then c[at := 1] else c
      decreases k
    {
      var s := k;
      assert s % BASE == 1 && s / BASE == 0;
      c' := c'[at + stored := s % BASE];
      k := s / BASE;
      stored := stored + 1;
    }
  }

  /** Storing the final carry completes the sum: the carry is 1 exactly when the sum overflows
      wl words, the window of wl words plus the carry word, when there is one, holds the sum,
      that carry word is 1, and nothing outside the window changes. */
  lemma {:induction false} FinishAdd(A: seq<Word>, B: seq<Word>, c: seq<Word>, body: seq<Word>,
                                     c': seq<Word>, off: nat, wl: nat, carry: nat, wc: nat)
    requires wl == Max(|A|, |B|) && carry <= 1 && wc == wl + carry
    requires |body| == |c| && off + wl + (if CarriesOut(A, B) then 1 else 0) <= |c|
    requires body[..off] == c[..off] && body[off + wl..] == c[off + wl..]
    requires Val(body[off..off + wl]) + carry * Pow(wl) == Val(A) + Val(B)
    requires c' == if carry == 1 then body[off + wl := 1] else body
    ensures carry == 1 <==> CarriesOut(A, B)
    ensures |c'| == |c| && off + wc <= |c|
    ensures carry == 1 ==> c'[off + wc - 1] == 1
    ensures Val(c'[off..off + wc]) == Val(A) + Val(B)
    ensures c'[..off] == c[..off]
    ensures c'[off + wc..] == c[off + wc..]
  {
    ValBound(body[off..off + wl]);
    CarryCases(Val(body[off..off + wl]), Pow(wl), carry, Val(A) + Val(B));
    if carry == 1 {
      WriteWord(body, off, wl, 1);
      assert c'[off + (wl + 1)..] == body[off + (wl + 1)..] == body[off + wl..][1..];
    }
  }

  /** add32 once the longer operand is `long`: the word loop, then the carry loop. */
  method AddOrdered(long: Operand, short: Operand, c: seq<Word>, off: nat)
    returns (c': seq<Word>, wc: nat)
    requires Width(short) <= Width(long)
    requires Fits(long, c, off) && Fits(short, c, off)
    requires off + Width(long)
               + (if CarriesOut(Contents(long, c, off), Contents(short, c, off)) then 1 else 0) <= |c|
    ensures |c'| == |c|
    ensures Width(long) <= wc <= Width(long) + 1
    ensures wc == Width(long) + 1 <==> CarriesOut(Contents(long, c, off), Contents(short, c, off))
    ensures wc == Width(long) + 1 ==> c'[off + wc - 1] == 1
    ensures off + wc <= |c|
    ensures Val(c'[off..off + wc]) == Val(Contents(long, c, off)) + Val(Contents(short, c, off))
    ensures c'[..off] == c[..off]
    ensures c'[off + wc..] == c[off + wc..]
  {
    var carry;
    c', carry := AddColumns(long, short, c, off);
    ghost var body := c';
    var extra;
    c', extra := StoreCarry(c', off + Width(long), carry);
    wc := Width(long) + extra;
    FinishAdd(Contents(long, c, off), Contents(short, c, off), c, body, c', off, Width(long), carry,
              wc);
  }

  /** add32: c[off..off + wc] := a + b. The longer operand drives the loop (the swap); words
      are read at index i before word i of the destination is written, so an in-place operand is
      never read after it has been overwritten. The sum has max(wa, wb) words, or one more
      exactly when it overflows that width, and then the extra word is the final carry 1.
      Nothing outside the written window changes. */
  method Add32(a: Operand, b: Operand, c: seq<Word>, off: nat) returns (c': seq<Word>, wc: nat)
    requires Fits(a, c, off) && Fits(b, c, off)
    requires off + Max(Width(a), Width(b))
               + (if CarriesOut(Contents(a, c, off), Contents(b, c, off)) then 1 else 0) <= |c|
    ensures |c'| == |c|
    ensures Max(Width(a), Width(b)) <= wc <= Max(Width(a), Width(b)) + 1
    ensures wc == Max(Width(a), Width(b)) + 1 <==> CarriesOut(Contents(a, c, off), Contents(b, c, off))
    ensures wc == Max(Width(a), Width(b)) + 1 ==> c'[off + wc - 1] == 1
    ensures off + wc <= |c|
    ensures Val(c'[off..off + wc]) == Val(Contents(a, c, off)) + Val(Contents(b, c, off))
    ensures c'[..off] == c[..off]
    ensures c'[off + wc..] == c[off + wc..]
  {
    // only the roles are swapped; no buffer is written
    if Width(b) > Width(a) {
      c', wc := AddOrdered(b, a, c, off);
    } else {
      c', wc := AddOrdered(a, b, c, off);
    }
  }

  /** The swap of add32 as written: when b is the longer operand, the old length wa is parked
      in the word `tmp` refers to, which is the first word of a's buffer, so the
      shorter operand is added with that word replaced by wa. With an empty a, the store falls
      outside a's buffer; that case is left as it is. */
  function SwapClobber(a: seq<Word>, b: seq<Word>): (a': seq<Word>)
    ensures |a'| == |a|
    ensures |b| > |a| > 0 ==> Val(a') + a[0] == Val(a) + |a| % BASE
    ensures |b| <= |a| || |a| == 0 ==> Val(a') == Val(a)
  {
    if |b| > |a| && |a| > 0 then
      ValUpdate(a, 0, |a| % BASE);
      a[0 := |a| % BASE]
    else
      a
  }

  /** add32 as written, on two separate operands: the sum it stores is the longer operand plus
      the shorter one with its first word clobbered. It agrees with a + b whenever no swap
      happens. */
  method Add32AsWritten(a: seq<Word>, b: seq<Word>, c: seq<Word>) returns (c': seq<Word>, wc: nat)
    requires Max(|a|, |b|) + 1 <= |c|
    ensures wc <= |c'|
    ensures Val(c'[..wc]) == Val(SwapClobber(a, b)) + Val(b)
    ensures |b| <= |a| ==> Val(c'[..wc]) == Val(a) + Val(b)
  {
    var a' := SwapClobber(a, b);
    c', wc := Add32(Separate(a'), Separate(b), c, 0);
    assert c'[0..0 + wc] == c'[..wc];
  }

  /** The swap defect on a concrete input: 5 + 0, with the zero given as two words, comes out
      as 1, the clobbered word, where Add32 gives 5. */
  method SwapDefectWitness() returns (c': seq<Word>, wc: nat)
    ensures Val([5]) + Val([0, 0]) == 5
    ensures wc <= |c'|
    ensures Val(c'[..wc]) == 1
  {
    assert Val([5]) == 5 by {
      assert [5][1..] == [];
    }
    assert Val([0, 0]) == 0 by {
      assert [0, 0] == Zeros(2);
      ValZeros(2);
    }
    c', wc := Add32AsWritten([5], [0, 0], Zeros(3));
    assert SwapClobber([5], [0, 0]) == [1];
    assert Val([1]) == 1 by {
      assert [1][1..] == [];
    }
  }
}
