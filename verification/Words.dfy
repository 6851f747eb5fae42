/** 64-bit machine words, kept as their bits (least significant first), with the
    operators of C on `unsigned long` that the bitmaps of the kernel use.
    Shifting by 64 or more is undefined in C and is excluded here as well. */
module Words {

  const BITS := 64

  type Word = w: seq<bool> | |w| == BITS witness seq(BITS, _ => false)

  /** All 64 bits set: 0xffffffffffffffff. */
  const ONES: Word := seq(BITS, _ => true)

  function Or(a: Word, b: Word): Word {
    seq(BITS, i requires 0 <= i < BITS => a[i] || b[i])
  }

  function And(a: Word, b: Word): Word {
    seq(BITS, i requires 0 <= i < BITS => a[i] && b[i])
  }

  function Xor(a: Word, b: Word): Word {
    seq(BITS, i requires 0 <= i < BITS => a[i] != b[i])
  }

  function Not(a: Word): Word {
    seq(BITS, i requires 0 <= i < BITS => !a[i])
  }

  function Shr(a: Word, k: nat): Word
    requires k < BITS
  {
    seq(BITS, i requires 0 <= i < BITS => i + k < BITS && a[i + k])
  }

  function Shl(a: Word, k: nat): Word
    requires k < BITS
  {
    seq(BITS, i requires 0 <= i < BITS => i >= k && a[i - k])
  }

  /** `1UL << k` */
  function One(k: nat): Word
    requires k < BITS
  {
    seq(BITS, i => i == k)
  }

  /** `(1UL << n) - 1`: the n low bits. */
  function Low(n: nat): Word
    requires n < BITS
  {
    seq(BITS, i => i < n)
  }

  predicate IsZero(a: Word) {
    forall i :: 0 <= i < BITS ==> !a[i]
  }

  /** The bits of consecutive words, in address order. */
  function Flat(ws: seq<Word>): (bits: seq<bool>)
    ensures |bits| == BITS * |ws|
    ensures forall i :: 0 <= i < |bits| ==> bits[i] == ws[i / BITS][i % BITS]
  {
    seq(BITS * |ws|, i requires 0 <= i < BITS * |ws| => ws[i / BITS][i % BITS])
  }

  /** Rewriting one word so that exactly one bit takes the value b changes exactly that bit of
      the whole bitmap. */
  lemma FlatPut(ws: seq<Word>, w: nat, word: Word, k: nat, b: bool)
    requires w < |ws| && k < BITS
    requires word[k] == b
    requires forall i :: 0 <= i < BITS && i != k ==> word[i] == ws[w][i]
    ensures Flat(ws[w := word]) == Flat(ws)[BITS * w + k := b]
  {
    var a, c := Flat(ws[w := word]), Flat(ws)[BITS * w + k := b];
    forall i | 0 <= i < BITS * |ws|
      ensures a[i] == c[i]
    {
      assert i == BITS * (i / BITS) + i % BITS;
    }
  }

  /** The three single-bit updates the kernel performs on a bitmap word. */
  lemma FlatUpdates(ws: seq<Word>, n: nat)
    requires n < BITS * |ws|
    ensures Flat(ws[n / BITS := Or(ws[n / BITS], One(n % BITS))]) == Flat(ws)[n := true]
    ensures Flat(ws[n / BITS := And(ws[n / BITS], Not(One(n % BITS)))]) == Flat(ws)[n := false]
    ensures Flat(ws[n / BITS := Xor(ws[n / BITS], One(n % BITS))]) == Flat(ws)[n := !Flat(ws)[n]]
  {
    var w, k := n / BITS, n % BITS;
    assert n == BITS * w + k;
    FlatPut(ws, w, Or(ws[w], One(k)), k, true);
    FlatPut(ws, w, And(ws[w], Not(One(k))), k, false);
    FlatPut(ws, w, Xor(ws[w], One(k)), k, !ws[w][k]);
  }

  /** Testing one bit, and a whole word of them at once. */
  lemma BitTest(ws: seq<Word>, n: nat)
    requires n < BITS * |ws|
    ensures IsZero(And(ws[n / BITS], One(n % BITS))) <==> !Flat(ws)[n]
    ensures ws[n / BITS] == ONES ==> forall l :: n - n % BITS <= l < n - n % BITS + BITS ==> Flat(ws)[l]
  {
    assert And(ws[n / BITS], One(n % BITS))[n % BITS] == Flat(ws)[n];
    if ws[n / BITS] == ONES {
      forall l | n - n % BITS <= l < n - n % BITS + BITS
        ensures Flat(ws)[l]
      {
        assert l / BITS == n / BITS;
      }
    }
  }

  /** Two neighbouring words read as one from bit k of the first on:
      `k ? ((*p >> k) | (*(p + 1) << (64 - k))) : *p`. */
  function Stitch(lo: Word, hi: Word, k: nat): Word
    requires k < BITS
  {
    if k != 0 then Or(Shr(lo, k), Shl(hi, BITS - k)) else lo
  }

  /** The stitched test of n low bits looks at exactly the n bitmap bits that start at bit k of
      word w, even when they cross into the next word. */
  lemma StitchedTest(ws: seq<Word>, w: nat, k: nat, n: nat)
    requires w + 1 < |ws| && k < BITS && n < BITS
    ensures IsZero(And(Stitch(ws[w], ws[w + 1], k), Low(n)))
       <==> forall l :: BITS * w + k <= l < BITS * w + k + n ==> !Flat(ws)[l]
  {
    var flat, s := Flat(ws), Stitch(ws[w], ws[w + 1], k);
    forall i | 0 <= i < n
      ensures And(s, Low(n))[i] == s[i] == flat[BITS * w + k + i]
    {
      if k + i < BITS {
        assert (BITS * w + k + i) / BITS == w;
      } else {
        assert (BITS * w + k + i) / BITS == w + 1;
      }
    }
    if forall l :: BITS * w + k <= l < BITS * w + k + n ==> !flat[l] {
      forall i | 0 <= i < BITS
        ensures !And(s, Low(n))[i]
      {
        if i < n {
          assert !flat[BITS * w + k + i];
        }
      }
    } else {
      var l :| BITS * w + k <= l < BITS * w + k + n && flat[l];
      assert And(s, Low(n))[l - BITS * w - k];
    }
  }
}
