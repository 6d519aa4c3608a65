/** cycle_walking_cipher: chooses the half block size for the interval,
    scrambles the key, splits the offset of the value into two half blocks
    and re-encrypts with the Feistel network until the result falls inside
    the interval, giving up after a fixed number of walks.

    The offsets handled here are the non-negative differences value - minval,
    so the shifts and masks of the source are the recursive Shr, Low and Shl
    of module Bits. */
module CycleWalk {
  import opened Bits
  import opened Feistel
  import opened Types
  import opened Walking

  /** Intervals of at most 2^62 values are modelled (hsz <= 31). */
  const MAX_INTERVAL: nat := 0x4000_0000_0000_0000

  /** 4^h: the number of values a block of two h-bit halves holds. */
  function BlockSize(h: nat): nat {
    Pow2(h + h)
  }

  /** The half block size loop, started at h: h grows while it is below 32
      and 4^h is below the interval. */
  function HalfSizeFrom(interval: int, h: nat): (hsz: nat)
    requires 1 <= h <= 32
    ensures h <= hsz <= 32
    ensures hsz == 32 || interval <= BlockSize(hsz)
    ensures forall k :: h <= k < hsz ==> BlockSize(k) < interval
    decreases 32 - h
  {
    if h < 32 && BlockSize(h) < interval then HalfSizeFrom(interval, h + 1) else h
  }

  /** hsz: the least h in 1..32 whose block of 4^h values covers the
      interval, or 32 when none does. */
  function HalfSize(interval: int): (hsz: nat)
    ensures 1 <= hsz <= 32
    ensures hsz == 32 || interval <= BlockSize(hsz)
    ensures forall k :: 1 <= k < hsz ==> BlockSize(k) < interval
  {
    HalfSizeFrom(interval, 1)
  }

  /** Within the modelled intervals the half blocks have at most 31 bits
      and the block covers the interval. */
  lemma HalfSizeBounded(interval: int)
    requires interval <= MAX_INTERVAL
    ensures HalfSize(interval) <= 31
    ensures interval <= BlockSize(HalfSize(interval))
  {
    Pow2Constants();
    assert BlockSize(31) == MAX_INTERVAL;
  }

  /** The key after scrambling: hash of the low 32 bits in the low half,
      hash of the high 32 bits in the high half. */
  function ScrambleKey(hash: Hash, key: U64): (k: U64)
    ensures k % 0x1_0000_0000 == hash(key % 0x1_0000_0000)
    ensures k / 0x1_0000_0000 == hash(key / 0x1_0000_0000)
  {
    var lo, hi := hash(key % 0x1_0000_0000), hash(key / 0x1_0000_0000);
    DivModUnique(hi * 0x1_0000_0000 + lo, 0x1_0000_0000, hi, lo);
    hi * 0x1_0000_0000 + lo
  }

  /** (off >> hsz, off & mask), each assigned to a uint32 variable. */
  function Split(hsz: nat, off: nat): Halves {
    Halves(Shr(off, hsz) % 0x1_0000_0000, Low(off, hsz) % 0x1_0000_0000)
  }

  /** (hi << hsz) | lo for the pair (hi, lo). */
  function Join(hsz: nat, p: Halves): nat {
    Shl(p.l, hsz) + p.r
  }

  /** An offset inside the block splits into halves of hsz bits that join
      back into it. */
  lemma SplitJoin(hsz: nat, off: nat)
    requires hsz <= 31 && off < BlockSize(hsz)
    ensures Fits(hsz, Split(hsz, off))
    ensures Join(hsz, Split(hsz, off)) == off
  {
    HalfWordBound(hsz);
    ShrBound(off, hsz, hsz);
    LowBound(off, hsz);
    ShrLow(off, hsz);
  }

  /** Two halves of hsz bits join into an offset inside the block, which
      splits back into them. */
  lemma JoinSplit(hsz: nat, p: Halves)
    requires hsz <= 31 && Fits(hsz, p)
    ensures Join(hsz, p) < BlockSize(hsz)
    ensures Split(hsz, Join(hsz, p)) == p
  {
    ShlAdd(p.l, p.r, hsz, hsz);
  }

  /** One pass of the do-while body on an offset: split it, run the
      network and read the result as (r1 << hsz) | l1. */
  function Pass(s: Schedule, d: Direction, off: nat): (y: nat)
    requires s.Valid()
  {
    Join(s.hsz, Network(s, d, 0, Split(s.hsz, off)).Swap())
  }

  /** A pass maps the block into itself. */
  lemma PassBound(s: Schedule, d: Direction, off: nat)
    requires s.Valid() && off < BlockSize(s.hsz)
    ensures Pass(s, d, off) < BlockSize(s.hsz)
  {
    SplitJoin(s.hsz, off);
    var fin := Network(s, d, 0, Split(s.hsz, off));
    NetworkFits(s, d, 0, Split(s.hsz, off));
    JoinSplit(s.hsz, fin.Swap());
  }

  /** A pass in the opposite direction undoes a pass: the permutation of
      the block computed by decryption is the inverse of encryption's. */
  lemma PassInverse(s: Schedule, d: Direction, off: nat)
    requires s.Valid() && off < BlockSize(s.hsz)
    ensures Pass(s, d.Opposite(), Pass(s, d, off)) == off
  {
    SplitJoin(s.hsz, off);
    var p := Split(s.hsz, off);
    var fin := Network(s, d, 0, p);
    NetworkFits(s, d, 0, p);
    JoinSplit(s.hsz, fin.Swap());
    NetworkInverse(s, d, p);
    assert p.Swap().Swap() == p;
  }

  /** The pass as a step function on naturals, for the generic walk of
      module Walking. */
  function PassFn(s: Schedule, d: Direction): (f: nat -> nat)
    requires s.Valid()
    ensures forall off: nat {:trigger f(off)} :: f(off) == Pass(s, d, off)
  {
    (off: nat) => Pass(s, d, off)
  }

  /** The pass permutes the block, and the pass in the opposite direction
      is its inverse. */
  lemma PassPermutes(s: Schedule, d: Direction)
    requires s.Valid()
    ensures MapsInto(PassFn(s, d), BlockSize(s.hsz))
    ensures Undoes(PassFn(s, d.Opposite()), PassFn(s, d), BlockSize(s.hsz))
  {
    forall off: nat | off < BlockSize(s.hsz)
      ensures PassFn(s, d)(off) < BlockSize(s.hsz)
      ensures PassFn(s, d.Opposite())(PassFn(s, d)(off)) == off
    {
      PassBound(s, d, off);
      PassInverse(s, d, off);
    }
  }

  /** The state after the swap that ends a pass. */
  function Turn(s: Schedule, d: Direction, state: Halves): (t: Halves)
    requires s.Valid()
  {
    Network(s, d, 0, state).Swap()
  }

  /** Re-entry: the half blocks the swap leaves for the next pass are the
      split of the pass's result (r1 << hsz) | l1. */
  lemma ReEntry(s: Schedule, d: Direction, off: nat)
    requires s.Valid() && off < BlockSize(s.hsz)
    ensures Fits(s.hsz, Turn(s, d, Split(s.hsz, off)))
    ensures Turn(s, d, Split(s.hsz, off)) == Split(s.hsz, Pass(s, d, off))
  {
    SplitJoin(s.hsz, off);
    NetworkFits(s, d, 0, Split(s.hsz, off));
    JoinSplit(s.hsz, Turn(s, d, Split(s.hsz, off)));
  }

  /** The loop body on the half blocks (l1, r1): the nine rounds followed
      by the swap. */
  function TurnFn(s: Schedule, d: Direction): (turn: Halves -> Halves)
    requires s.Valid()
    ensures forall p: Halves {:trigger turn(p)} :: turn(p) == Turn(s, d, p)
  {
    (p: Halves) => Turn(s, d, p)
  }

  function JoinFn(hsz: nat): (join: Halves -> nat)
    ensures forall p: Halves {:trigger join(p)} :: join(p) == Join(hsz, p)
  {
    (p: Halves) => Join(hsz, p)
  }

  function SplitFn(hsz: nat): (split: nat -> Halves)
    ensures forall off: nat {:trigger split(off)} :: split(off) == Split(hsz, off)
  {
    (off: nat) => Split(hsz, off)
  }

  /** The loop on half blocks follows the pass on offsets. */
  lemma PassTracked(s: Schedule, d: Direction)
    requires s.Valid()
    ensures Tracks(TurnFn(s, d), JoinFn(s.hsz), SplitFn(s.hsz), PassFn(s, d), BlockSize(s.hsz))
  {
    forall off: nat | off < BlockSize(s.hsz)
      ensures TurnFn(s, d)(SplitFn(s.hsz)(off)) == SplitFn(s.hsz)(PassFn(s, d)(off))
      ensures JoinFn(s.hsz)(TurnFn(s, d)(SplitFn(s.hsz)(off))) == PassFn(s, d)(off)
    {
      ReEntry(s, d, off);
    }
  }

  /** The model covers intervals of at most 2^62 values: beyond that the
      source's `maxval - minval + 1` or `1 << hsz` overflow. */
  predicate IntervalModelled(minval: int64, maxval: int64) {
    maxval as int - minval as int < MAX_INTERVAL
  }

  /** value - minval: how far a value lies above the lower bound.  The walk
      works on these offsets. */
  function Offset(minval: int64, value: int64): (off: nat)
    requires minval <= value
    ensures minval as int + off == value as int
  {
    value as int - minval as int
  }

  /** The per-call constants: hsz from the interval and the scrambled key.
      They do not depend on the direction. */
  function CipherSchedule(hash: Hash, minval: int64, maxval: int64, key: U64): (s: Schedule)
    requires minval <= maxval && IntervalModelled(minval, maxval)
    ensures s.Valid()
    ensures Offset(minval, maxval) < BlockSize(s.hsz)
  {
    HalfSizeBounded(maxval as int - minval as int + 1);
    var hsz := HalfSize(maxval as int - minval as int + 1);
    Schedule(hash, hsz, Subkeys(ScrambleKey(hash, key), hsz))
  }

  /** The walk of the source from the offset of the value, on the half
      blocks the loop keeps between passes. */
  function WalkFrom(s: Schedule, d: Direction, limit: int, off: nat): (w: WalkOutcome)
    requires s.Valid()
    ensures w.Found? ==> w.offset <= limit
  {
    Walk(TurnFn(s, d), JoinFn(s.hsz), limit, Split(s.hsz, off), 0)
  }

  /** The walk fails exactly when passes 1..walk_max all leave [0, limit],
      and otherwise stops at the first pass that lands in it. */
  lemma WalkFromIsFirstInRange(s: Schedule, d: Direction, limit: int, off: nat)
    requires s.Valid() && off < BlockSize(s.hsz)
    ensures Describes(PassFn(s, d), limit, off, WalkFrom(s, d, limit, off))
  {
    PassPermutes(s, d);
    PassTracked(s, d);
    WalkIterates(TurnFn(s, d), JoinFn(s.hsz), SplitFn(s.hsz), PassFn(s, d), BlockSize(s.hsz), limit, off, 0);
    assert SplitFn(s.hsz)(Iterate(PassFn(s, d), 0, off)) == Split(s.hsz, off);
  }

  /** The value returned for the walk's outcome. */
  function Finish(minval: int64, limit: int, w: WalkOutcome): (r: Outcome)
    requires 0 <= limit && minval as int + limit <= INT64_MAX as int
    requires w.Found? ==> w.offset <= limit
  {
    match w
    case Found(result) => Ok((minval as int + result) as int64)
    case Exhausted => Err(InfiniteCycleWalking)
  }

  /** The body of cycle_walking_cipher once hsz and the subkeys are fixed,
      on the offset off = value - minval and limit = maxval - minval: walk
      from the offset and add minval back. */
  function CipherWith(s: Schedule, d: Direction, minval: int64, limit: nat, off: nat): (r: Outcome)
    requires s.Valid() && off <= limit < BlockSize(s.hsz) && minval as int + limit <= INT64_MAX as int
    ensures r.Ok? ==> minval as int <= r.value as int <= minval as int + limit
    ensures r.Err? ==> r.error == InfiniteCycleWalking
  {
    Finish(minval, limit, WalkFrom(s, d, limit, off))
  }

  /** cycle_walking_cipher(minval, maxval, value, key, direction). */
  function CycleWalkingCipher(hash: Hash, minval: int64, maxval: int64, value: int64, key: U64, d: Direction): (r: Outcome)
    requires minval <= value <= maxval && IntervalModelled(minval, maxval)
    ensures r.Ok? ==> minval <= r.value <= maxval
    ensures r.Err? ==> r.error == InfiniteCycleWalking
  {
    CipherWith(CipherSchedule(hash, minval, maxval, key), d, minval, Offset(minval, maxval), Offset(minval, value))
  }

  /** The cipher returns minval plus the first of passes 1..walk_max that
      lands inside the interval, and fails exactly when none does. */
  lemma CipherIsFirstInRange(s: Schedule, d: Direction, minval: int64, limit: nat, off: nat)
    requires s.Valid() && off <= limit < BlockSize(s.hsz) && minval as int + limit <= INT64_MAX as int
    ensures var r := CipherWith(s, d, minval, limit, off);
      && (r.Err? <==> Exhausts(PassFn(s, d), limit, off))
      && (r.Ok? ==> FirstLanding(PassFn(s, d), limit, off, Offset(minval, r.value)))
  {
    WalkFromIsFirstInRange(s, d, limit, off);
  }

  /** The offset of a successful result is the walk's landing point. */
  lemma FinishOffset(minval: int64, limit: int, w: WalkOutcome)
    requires 0 <= limit && minval as int + limit <= INT64_MAX as int
    requires w.Found? && w.offset <= limit
    ensures Finish(minval, limit, w) == Ok((minval as int + w.offset) as int64)
    ensures Offset(minval, Finish(minval, limit, w).value) == w.offset
  {
  }

  /** The walk in the opposite direction from where a walk lands comes
      back to where it started. */
  lemma WalkFromRoundTrip(s: Schedule, d: Direction, limit: int, off: nat)
    requires s.Valid() && off <= limit < BlockSize(s.hsz)
    requires WalkFrom(s, d, limit, off).Found?
    ensures WalkFrom(s, d.Opposite(), limit, WalkFrom(s, d, limit, off).offset) == Found(off)
  {
    var yoff := WalkFrom(s, d, limit, off).offset;
    WalkFromIsFirstInRange(s, d, limit, off);
    WalkFromIsFirstInRange(s, d.Opposite(), limit, yoff);
    PassPermutes(s, d);
    WalkBack(PassFn(s, d), PassFn(s, d.Opposite()), BlockSize(s.hsz), limit, off, yoff, WalkFrom(s, d.Opposite(), limit, yoff));
  }

  /** With a fixed schedule, the cipher in the opposite direction from the
      result's offset comes back to the value. */
  lemma CipherWithRoundTrip(s: Schedule, d: Direction, minval: int64, limit: nat, off: nat)
    requires s.Valid() && off <= limit < BlockSize(s.hsz) && minval as int + limit <= INT64_MAX as int
    requires CipherWith(s, d, minval, limit, off).Ok?
    ensures var y := CipherWith(s, d, minval, limit, off).value;
      CipherWith(s, d.Opposite(), minval, limit, Offset(minval, y)) == Ok((minval as int + off) as int64)
  {
    var w := WalkFrom(s, d, limit, off);
    var y := CipherWith(s, d, minval, limit, off).value;
    FinishOffset(minval, limit, w);
    assert Offset(minval, y) == w.offset;
    WalkFromRoundTrip(s, d, limit, off);
    FinishOffset(minval, limit, Found(off));
    assert CipherWith(s, d.Opposite(), minval, limit, w.offset) == Ok((minval as int + off) as int64);
  }

  /** The cipher is the walk on offsets under the schedule of the call. */
  lemma CipherUnfolds(hash: Hash, minval: int64, maxval: int64, value: int64, key: U64, d: Direction)
    requires minval <= value <= maxval && IntervalModelled(minval, maxval)
    ensures CycleWalkingCipher(hash, minval, maxval, value, key, d)
         == CipherWith(CipherSchedule(hash, minval, maxval, key), d, minval, Offset(minval, maxval), Offset(minval, value))
  {
  }

  /** Decrypting the result of encrypting (or the other way round) with the
      same bounds and key gives back the value: the schedule does not
      depend on the direction. */
  lemma CipherRoundTrip(hash: Hash, minval: int64, maxval: int64, value: int64, key: U64, d: Direction)
    requires minval <= value <= maxval && IntervalModelled(minval, maxval)
    ensures var r := CycleWalkingCipher(hash, minval, maxval, value, key, d);
      r.Ok? ==> CycleWalkingCipher(hash, minval, maxval, r.value, key, d.Opposite()) == Ok(value)
  {
    var r := CycleWalkingCipher(hash, minval, maxval, value, key, d);
    if r.Ok? {
      CipherUnfolds(hash, minval, maxval, value, key, d);
      CipherWithRoundTrip(CipherSchedule(hash, minval, maxval, key), d, minval, Offset(minval, maxval), Offset(minval, value));
      CipherUnfolds(hash, minval, maxval, r.value, key, d.Opposite());
    }
  }

  /** When the interval fills the block, every pass lands in it, so the
      walk stops after the first pass. */
  lemma CipherWithFullBlock(s: Schedule, d: Direction, minval: int64, limit: nat, off: nat)
    requires s.Valid() && off <= limit && limit + 1 == BlockSize(s.hsz) && minval as int + limit <= INT64_MAX as int
    ensures CipherWith(s, d, minval, limit, off).Ok?
  {
    CipherIsFirstInRange(s, d, minval, limit, off);
    PassBound(s, d, off);
    assert Iterate(PassFn(s, d), 1, off) == Pass(s, d, off);
    assert !Exhausts(PassFn(s, d), limit, off);
  }

  /** The half block size loop, started at h0 <= h on an interval of
      exactly 4^h values, stops at h. */
  lemma {:induction false} HalfSizeFromBlock(h0: nat, h: nat)
    requires 1 <= h0 <= h <= 31
    ensures HalfSizeFrom(BlockSize(h), h0) == h
    decreases h - h0
  {
    if h0 < h {
      Pow2Strict(h0 + h0, h + h);
      HalfSizeFromBlock(h0 + 1, h);
    }
  }

  /** An interval of exactly 4^h values never makes the cipher give up. */
  lemma CipherFullBlock(hash: Hash, minval: int64, maxval: int64, value: int64, key: U64, d: Direction, h: nat)
    requires minval <= value <= maxval && IntervalModelled(minval, maxval)
    requires 1 <= h <= 31 && maxval as int - minval as int + 1 == BlockSize(h)
    ensures CycleWalkingCipher(hash, minval, maxval, value, key, d).Ok?
  {
    HalfSizeFromBlock(1, h);
    assert CipherSchedule(hash, minval, maxval, key).hsz == h;
    CipherUnfolds(hash, minval, maxval, value, key, d);
    CipherWithFullBlock(CipherSchedule(hash, minval, maxval, key), d, minval, Offset(minval, maxval), Offset(minval, value));
  }

  /** Hence the cipher is injective on the interval: a permutation of the
      values it does not give up on. */
  lemma CipherInjective(hash: Hash, minval: int64, maxval: int64, x1: int64, x2: int64, key: U64, d: Direction)
    requires minval <= x1 <= maxval && minval <= x2 <= maxval && IntervalModelled(minval, maxval)
    ensures var r1, r2 := CycleWalkingCipher(hash, minval, maxval, x1, key, d), CycleWalkingCipher(hash, minval, maxval, x2, key, d);
      r1.Ok? && r1 == r2 ==> x1 == x2
  {
    CipherRoundTrip(hash, minval, maxval, x1, key, d);
    CipherRoundTrip(hash, minval, maxval, x2, key, d);
  }
}
