/**
 The C type `uint64_t` as it is used for pattern masks and symbol bitsets: 64 explicit bits,
 bit 0 least significant. Every operator is the machine operator on those bits; `Value` gives
 the unsigned number and `MinusOneValue` shows that the borrow in `MinusOne` is real subtraction.
 */
module Word64 {
  const WIDTH: nat := 64

  type Word = w: seq<bool> | |w| == WIDTH witness seq(WIDTH, _ => false)

  function Zero(): Word {
    seq(WIDTH, _ => false)
  }

  /** `1ULL << p` */
  function One(p: nat): Word
    requires p < WIDTH
  {
    seq(WIDTH, i => i == p)
  }

  function Or(a: Word, b: Word): Word {
    seq(WIDTH, i requires 0 <= i < WIDTH => a[i] || b[i])
  }

  function And(a: Word, b: Word): Word {
    seq(WIDTH, i requires 0 <= i < WIDTH => a[i] && b[i])
  }

  function Not(a: Word): Word {
    seq(WIDTH, i requires 0 <= i < WIDTH => !a[i])
  }

  /** The ids whose bits are set. */
  function Ids(w: Word): set<nat> {
    set p: nat | p < WIDTH && w[p]
  }

  /** Index of the lowest set bit at or above k. */
  function LowestFrom(w: Word, k: nat): (p: nat)
    requires k < WIDTH && exists i :: k <= i < WIDTH && w[i]
    ensures k <= p < WIDTH && w[p]
    ensures forall i | k <= i < p :: !w[i]
    decreases WIDTH - k
  {
    if w[k] then k else LowestFrom(w, k + 1)
  }

  /** `__builtin_ctzll` */
  function CountTrailingZeros(w: Word): (p: nat)
    requires w != Zero()
    ensures p < WIDTH && w[p] && forall i | 0 <= i < p :: !w[i]
  {
    NonZeroHasBit(w);
    LowestFrom(w, 0)
  }

  lemma NonZeroHasBit(w: Word)
    ensures w == Zero() || exists i :: 0 <= i < WIDTH && w[i]
  {
    if forall i | 0 <= i < WIDTH :: !w[i] {
      assert w == Zero();
    }
  }

  /** `w - 1`: the borrow sets every bit below the lowest set bit and clears that bit. */
  function MinusOne(w: Word): Word
    requires w != Zero()
  {
    var p := CountTrailingZeros(w);
    seq(WIDTH, i requires 0 <= i < WIDTH => if i < p then true else if i == p then false else w[i])
  }

  /** `b & (b - 1)` */
  function ClearLowBit(w: Word): (r: Word)
    requires w != Zero()
    ensures Ids(r) == Ids(w) - {CountTrailingZeros(w)}
  {
    And(w, MinusOne(w))
  }

  /** The unsigned number written by a bit string. */
  function Value(bits: seq<bool>): nat {
    if bits == [] then 0 else (if bits[0] then 1 else 0) + 2 * Value(bits[1..])
  }

  /** Bits k.. of w and of w-1: they differ by the borrow until the lowest set bit is passed. */
  lemma {:induction false} BorrowFrom(w: Word, k: nat)
    requires w != Zero() && k <= WIDTH
    ensures Value(MinusOne(w)[k..]) + (if k <= CountTrailingZeros(w) then 1 else 0) == Value(w[k..])
    decreases WIDTH - k
  {
    var m := MinusOne(w);
    if k == WIDTH {
      assert m[k..] == [] && w[k..] == [];
    } else {
      BorrowFrom(w, k + 1);
      assert m[k..][1..] == m[k + 1..] && w[k..][1..] == w[k + 1..];
    }
  }

  lemma MinusOneValue(w: Word)
    requires w != Zero()
    ensures Value(MinusOne(w)) == Value(w) - 1
  {
    BorrowFrom(w, 0);
    assert MinusOne(w)[0..] == MinusOne(w) && w[0..] == w;
  }

  lemma EmptyIds(w: Word)
    ensures w == Zero() <==> Ids(w) == {}
  {
    if w != Zero() {
      NonZeroHasBit(w);
      assert CountTrailingZeros(w) in Ids(w);
    }
  }
}
