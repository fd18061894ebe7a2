/**
 * Index arithmetic of the tiled loops in top_kernel.
 *
 * The kernel walks an extent of length n in steps of a tile width t
 * (`for (int ii = 0; ii < N; ii += T)`) and addresses element ii + i for
 * 0 <= i < t. When t divides n, the origins ii are exactly the multiples
 * of t below n, every access stays inside [0, n), and each index of
 * [0, n) is reached from exactly one (origin, offset) pair.
 *
 * Multiples of t are described by counting up in steps of t, as the loops
 * do, which keeps every proof in linear arithmetic; AlignedIsMultiple
 * shows that this is the usual `o % t == 0`.
 */
module Tiling {

  /** o is one of 0, t, 2t, ...: a value the loop `o += t` reaches from 0. */
  predicate Aligned(o: nat, t: nat)
    decreases o
  {
    o == 0 || (t > 0 && o >= t && Aligned(o - t, t))
  }

  /** t is a usable tile width for an extent of length n: no remainder tile. */
  predicate Divides(t: nat, n: nat) {
    t > 0 && Aligned(n, t)
  }

  /** The origin of the tile that holds index x. */
  function Origin(x: nat, t: nat): (o: nat)
    requires t > 0
    ensures o <= x < o + t
    decreases x
  {
    if x < t then 0 else Origin(x - t, t) + t
  }

  /** The origin of a tile is one of the values the tile loop visits. */
  lemma {:induction false} OriginAligned(x: nat, t: nat)
    requires t > 0
    ensures Aligned(Origin(x, t), t)
    decreases x
  {
    if x >= t {
      OriginAligned(x - t, t);
    }
  }

  /** One step of a tile loop: an aligned origin below n leaves a whole tile
      before n, and the next origin is aligned again. */
  lemma {:induction false} Step(o: nat, t: nat, n: nat)
    requires Divides(t, n) && Aligned(o, t) && o < n
    ensures o + t <= n && Aligned(o + t, t)
    decreases o
  {
    if o > 0 {
      Step(o - t, t, n - t);
    }
  }

  /** Inside the tile at origin o, offset i addresses index o + i, and the
      tile of o + i is o again. */
  lemma {:induction false} Offset(o: nat, i: nat, t: nat)
    requires t > 0 && Aligned(o, t) && i < t
    ensures Origin(o + i, t) == o
    decreases o
  {
    if o > 0 {
      Offset(o - t, i, t);
    }
  }

  /** Every index x < n lies in exactly one tile of the loop: any aligned
      origin whose tile holds x is Origin(x, t), and that tile fits inside
      [0, n). */
  lemma UniqueTile(x: nat, t: nat, n: nat, o': nat)
    requires Divides(t, n) && x < n
    requires Aligned(o', t) && o' <= x < o' + t
    ensures o' == Origin(x, t)
    ensures Origin(x, t) + t <= n
  {
    Offset(o', x - o', t);
    OriginAligned(x, t);
    Step(Origin(x, t), t, n);
  }

  /** d * t >= t for every positive d and t, by induction on d. */
  lemma {:induction false} MulAtLeast(d: int, t: int)
    requires d >= 1 && t > 0
    ensures d * t >= t
    decreases d
  {
    if d > 1 {
      MulAtLeast(d - 1, t);
      assert d * t == (d - 1) * t + t;
    }
  }

  /** Euclidean division is unique: x == q * t + i with 0 <= i < t fixes
      both the quotient and the remainder. */
  lemma {:induction false} DivModUnique(x: int, q: int, i: int, t: int)
    requires t > 0 && 0 <= i < t && x == q * t + i
    ensures x / t == q && x % t == i
  {
    var q', i' := x / t, x % t;
    assert x == q' * t + i';
    var d := q - q';
    assert d * t == i' - i by { assert q * t - q' * t == (q - q') * t; }
    if d >= 1 {
      MulAtLeast(d, t);
    } else if d <= -1 {
      MulAtLeast(-d, t);
    }
  }

  /** The aligned values are exactly the multiples of t: Divides(t, n) is the
      condition N % T == 0 under which the kernel's loops cover the matrix. */
  lemma {:induction false} AlignedIsMultiple(o: nat, t: nat)
    requires t > 0
    ensures Aligned(o, t) <==> o % t == 0
    decreases o
  {
    if o < t {
      DivModUnique(o, 0, o, t);
    } else {
      AlignedIsMultiple(o - t, t);
      var q := o / t;
      assert o == q * t + o % t;
      assert o - t == (q - 1) * t + o % t;
      DivModUnique(o - t, q - 1, o % t, t);
    }
  }
}
