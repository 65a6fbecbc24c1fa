# scaffold32 big-integer multiplication, modelled in Dafny

`scaffold32.c` multiplies large non-negative integers. Each integer is a little-endian vector of
unsigned 32-bit words. The file has five internal functions and an entry point:

- `add32`: ripple-carry addition. The longer operand drives the loop.
- `subtract32`: the three-operand difference `a - b - d`. The borrow is the arithmetic shift of
  a signed 64-bit partial sum.
- `multiply32`: schoolbook multiplication with a 64-bit accumulator.
- `karatsuba32`: Karatsuba's method. It assembles the product in the destination buffer by two
  in-place additions.
- `decide`: the dispatcher. An empty operand gives the empty product. An operand under 27 words
  goes to schoolbook. Everything else goes to Karatsuba.
- `Product32`: the entry point. It clears the destination and calls `decide`.

The model states each operation over the value of a word vector. In `words.dfy`, `Val(s)` is
the sum of `s[i] * 2^(32 i)`.

- A word is an integer in `[0, 2^32)`. Buffers are immutable sequences: an operation takes the
  destination buffer `c` and returns the new buffer `c'`. Its contract says which window of
  `c'` holds the result, what that window's value is, and that nothing outside it changed.
- The fixed-width accumulators are written out explicitly, and their ranges are proved:
  - `unsigned long long s`, `s % POWER32` and `s / POWER32` in add32.
  - `long long sum` with `sum >> 32` in subtract32. Dafny's `/` on a positive divisor rounds
    down, as an arithmetic shift does.
  - `unsigned long long p` in multiply32.
- add32's operands may alias the destination (Karatsuba steps 8 and 9). An operand is either
  `Separate(words)` or `InPlace(len)`, meaning the destination's own words at the offset the sum
  is written to. The loop reads such an operand from the buffer as it is at the moment of the
  read. Its invariant says that the words not yet written are still the original ones.
- `decide` and `karatsuba32` are mutually recursive. Termination is by the total operand length:
  every recursive product is strictly shorter because the split point is at least 13.
- `karatsuba32` always reports exactly `wa + wb` words, proved. This is stronger than "at most
  `wa + wb`". The model proves that step 9 never produces a carry word and that neither
  operand swap in `karatsuba32` is ever taken.

Files:
- `words.dfy`: words, `Val`, and lemmas about `Val`.
- `add.dfy`: add32.
- `subtract.dfy`: subtract32.
- `schoolbook.dfy`: multiply32.
- `karatsuba.dfy`: karatsuba32, decide and Product32.
- `properties.dfy`: properties relating several calls.

## Model

| member | source | states |
|---|---|---|
| `Addition.Add32` | scaffold32.c:32-82 | The window of `wc` words written from `off` holds a + b. `wc` is max(wa, wb), or max(wa, wb) + 1 exactly when the sum needs the extra word, and then that top word is 1. Nothing outside the window changes, even when an operand is the destination itself. |
| `Addition.AddColumns` | scaffold32.c:51-69 | After the word loop, the longer operand's width of words plus the carry (0 or 1) at weight 2^(32 wl) equals the two operands' sum. |
| `Addition.AddOrdered` | scaffold32.c:51-81 | With the longer operand first, the word loop and then the carry loop store the sum on wl or wl + 1 words. It is one more word exactly when the sum overflows wl words. |
| `Addition.AddColumn` | scaffold32.c:54-68 | One column reads word i of both operands before storing word i. The stored words plus the carry, which stays 0 or 1, account for the operands' words up to i. |
| `Addition.StoreCarry` | scaffold32.c:71-78 | The carry loop stores exactly as many words as the carry (0 or 1), and a stored carry word is 1. |
| `Addition.FinishAdd` | scaffold32.c:71-81 | The carry is 1 exactly when the sum overflows wl words. Then the window plus the carry word holds the sum, and nothing outside the window changes. |
| `Addition.ReadUnwritten` | scaffold32.c:54-62 | Reading word i of an in-place operand, once the words below i have been overwritten, still gives the operand's original word i. |
| `Addition.AddStep` | scaffold32.c:54-68 | One column keeps the partial-sum invariant: the stored low word plus the new carry account for word i of both operands. |
| `Addition.SwapClobber` | scaffold32.c:40-49 | Under the swap as written, a non-empty shorter operand a loses value a[0] and gains wa at the lowest weight. In every other case its value is unchanged. |
| `Addition.Add32AsWritten` | scaffold32.c:40-81 | The code as written stores (shorter operand with word 0 clobbered) + longer operand. It agrees with a + b when no swap happens. |
| `Addition.SwapDefectWitness` | scaffold32.c:46-48 | For 5 + 0 (the zero given as two words), the code as written yields 1. |
| `Words.Shr32` | scaffold32.c:110-125 | `sum >> 32` as an arithmetic shift is the floor of sum / 2^32: 2^32 r <= sum < 2^32 r + 2^32, for negative sums too. |
| `Words.Trunc32` | scaffold32.c:111-126 | Storing a signed 64-bit sum into an unsigned word keeps the word w with sum = w + 2^32 (sum >> 32), so nothing is lost between the stored word and the borrow. |
| `Subtraction.SubtractColumn` | scaffold32.c:106-127 | One column of the three borrow loops appends the low word to c. The invariant moves from column i to column i + 1: the stored words plus the borrow at weight 2^(32 (i+1)) are a - b - d on the low i + 1 words. |
| `Subtraction.SubColumn` | scaffold32.c:106-126 | With an incoming borrow in {0, -1, -2}, the signed partial sum stays in [-2^33, 2^32). Its shift is again in {0, -1, -2}, and it is negative exactly when the partial sum is. |
| `Subtraction.SubStep` | scaffold32.c:106-127 | One column keeps the invariant: the words stored so far plus the borrow at weight 2^(32 i) equal a - b - d on the low i words. |
| `Subtraction.BorrowResolved` | scaffold32.c:122-131 | If the borrow chain runs off the end of a, a non-negative result forces the leftover borrow to be 0. |
| `Subtraction.CopyRest` | scaffold32.c:129-132 | Once no borrow is pending, the rest of c is word for word the rest of a, and c then holds a - b - d on all of a's words. |
| `Subtraction.Subtract32` | scaffold32.c:96-135 | For wd <= wb <= wa and value(a) >= value(b) + value(d), c has exactly wa words and holds a - b - d. |
| `Schoolbook.MulColumn` | scaffold32.c:161-165 | x * y + stored word + carry never exceeds 2^64 - 1, so the 64-bit accumulator does not overflow and its high half, the next carry, fits in one word. |
| `Schoolbook.MulStep` | scaffold32.c:161-165 | One inner step keeps the invariant: the buffer plus the carry at weight 2^(32 (i+j)) equals a[..i] * b + a[i] * b[..j] * 2^(32 i). |
| `Schoolbook.RowStep` | scaffold32.c:166 | Storing the row's final carry into word i + wb, still zero, completes a[..i+1] * b. |
| `Schoolbook.MulRow` | scaffold32.c:159-167 | Row i adds a[i] * b at word i, and the words above i + 1 + wb stay zero. |
| `Schoolbook.Multiply32` | scaffold32.c:146-168 | wc = wa + wb. The low wa + wb words hold a * b, and the rest of the buffer is untouched. |
| `Multiplication.Choose` | scaffold32.c:262-269 | The empty product exactly when an operand is empty. Karatsuba exactly when both operands have at least 27 words. Schoolbook otherwise. |
| `Multiplication.SplitPoint` | scaffold32.c:185-191 | n is half the shorter length rounded down: 2n <= min(wa, wb) < 2n + 2. |
| `Multiplication.HalfSum` | scaffold32.c:203-213 | t = high part + low part. It has the high part's width or one word more, and the addition never needs the swap. |
| `Multiplication.KaratsubaIdentity` | scaffold32.c:207-256 | (x2 + p x1)(y2 + p y1) = x2 y2 + p ((x1 + x2)(y1 + y2) - x1 y1 - x2 y2) + p^2 x1 y1. |
| `Multiplication.CrossTermNonNegative` | scaffold32.c:230-239 | (u1 + u2)(v1 + v2) >= u1 v1 + u2 v2, so the step-6 subtraction never underflows. |
| `Multiplication.CrossTerm` | scaffold32.c:230-239 | Whichever of w2 and w4 is longer goes first, as subtract32 requires. The result has w3's width and equals w3 - w2 - w4. |
| `Multiplication.StepEight` | scaffold32.c:241-246 | Adding w3 in place at word n, to the high half of w4, leaves w4's low half alone. The words from n hold w3 + (high half of w4). |
| `Multiplication.StepNineFits` | scaffold32.c:244-250 | After step 8, w2 plus the words from 2n on stay below 2^(32 \|w2\|), so step 9 needs no carry word. |
| `Multiplication.StepNine` | scaffold32.c:248-250 | Adding w2 in place at word 2n writes exactly \|w2\| words, leaves the low 2n words alone, and stores w2 + (words from 2n on). |
| `Multiplication.Assemble` | scaffold32.c:241-256 | Steps 8 and 9 leave w4 + w3 * 2^(32 n) + w2 * 2^(64 n) on exactly 2n + \|w2\| words, and nothing beyond them changes. |
| `Multiplication.AssembledProduct` | scaffold32.c:193-239 | The three sub-products and the cross term recombine to a * b, which is below 2^(32 (wa + wb)). |
| `Multiplication.Karatsuba32` | scaffold32.c:179-257 | For operands of at least 27 words, the destination's low wa + wb words hold a * b, wc = wa + wb, and nothing past them changes. |
| `Multiplication.Decide` | scaffold32.c:259-270 | With an empty operand, wc = 0 and the buffer is unchanged. Otherwise wc = wa + wb and those words hold a * b, whichever algorithm runs. Nothing past wc changes. |
| `Multiplication.Product32` | scaffold32.c:273-284 | The cleared destination of wa + wb words holds a * b as a whole. |
| `Properties.AddSymmetric` | scaffold32.c:40-49 | add32(a, b) and add32(b, a) write identical buffers and report the same length. |
| `Properties.InPlaceAgrees` | scaffold32.c:51-69 | An in-place operand gives the same buffer and length as a separate copy of the same words. |
| `Properties.SubtractUndoesAdd` | scaffold32.c:96-135 | For operands of any widths, subtracting x from add32(x, y) gives a result as wide as the sum that is the words of y padded with zero words. |
| `Properties.ProductAgreesWithSchoolbook` | scaffold32.c:259-270 | Product32 and multiply32 fill a cleared buffer of wa + wb words identically, word for word. |

## Left out

- The includes (scaffold32.c:14-19) are not modelled. stdio, stdarg, gmp and time are not used by the functions modelled here. `scaffold32.h` is the file's own header. stdlib supplies `calloc` and `free`, and the allocator is left out as described below. `POWER32` is `BASE` in `words.dfy`.
- Product32's `void *` casts and its bit-length parameters `ba`, `bb` and `bc` are left out. `bc` is never assigned.
- `calloc` and `free` of the scratch buffers are not modelled. Each scratch buffer is a fresh sequence of zero words. The `t1`/`t2` pair that shares one allocation is two buffers of `wu1 + 1` and `wv1 + 1` words, which are the regions the code gives them.
- The clearing loop of multiply32 and the `memset` of Product32 are modelled as `Zeros(wa + wb)`.
- Lengths are unbounded naturals. The wrap-around of `unsigned int` length arithmetic (`wa + wb`, `3 * n`, and the like) at 2^32 is not modelled, because lengths of that size do not fit in memory. The signed `int i` loop counters are not modelled for the same reason.
- add32's operand swap is modelled as swapping roles only. The code as written clobbers a word (see Findings). The rest of the model uses the corrected behaviour.
- Addition.SwapClobber: when a is empty, the store `*tmp = wa` falls outside a's buffer. That out-of-bounds write is not modelled, and a is left as it is.
- Words.Shr32: models `sum >> 32` on a negative `long long` as an arithmetic shift (rounding down). C11 section 6.5.7 paragraph 5 leaves that result implementation-defined. The common compilers shift arithmetically, and the borrow logic of subtract32 depends on it.
- subtract32's copy `int_c[i++] = int_a[i]` (scaffold32.c:131) reads and writes `i` unsequenced, which is undefined behaviour in C. It is modelled as the evidently intended copy of word i.
- In Karatsuba step 6, subtract32 writes its result over its own minuend `w3`. This is modelled as a fresh result assigned back to `w3`. Each word is read at index i before word i is written, so both readings agree.
- `decide` is declared to return `int` but returns nothing. It is modelled without a return value. No caller uses it.
- The threshold is the named constant `THRESHOLD = 27`. Tuning it, and any performance or recursion-depth claim, is not modelled.
- Running the sub-products concurrently is not modelled.
- Multiplication.Karatsuba32: requires both operands to have at least THRESHOLD words. That is what its only caller, `decide`, guarantees. Shorter operands are not analysed.
- Subtraction.Subtract32: its contract gives c's width and value but not directly that the words past the resolved borrow are a's words. `Subtraction.CopyRest` states that. The width and value determine every word anyway, since `Words.ValInjective` shows a value has one representation per width.
- The unused locals `sum1` and `sum2` of subtract32 and the unused `w1` and `ww1` of karatsuba32 have no behaviour to model.

## Findings

| source | as written | input that shows it | evidently intended | confidence | as-written member | corrected member |
|---|---|---|---|---|---|---|
| scaffold32.c:46-48 | When wb > wa, `*tmp = wa` stores the length wa into the first word of a's buffer, because `tmp` points to it. The swapped-in shorter operand is then added with that word replaced by wa. | a = [5] (wa = 1), b = [0, 0] (wb = 2): the stored sum is 1, not 5. | Swap the lengths through a scalar temporary and leave both buffers alone. | high; not executed | `Addition.Add32AsWritten`, `Addition.SwapDefectWitness` | `Addition.Add32` |
