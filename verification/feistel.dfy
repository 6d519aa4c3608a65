/** The Feistel network of cycle_walking_cipher: nine rounds over two half
    blocks of hsz bits each, with a round function built from a 32-bit hash
    of the right half and of a per-round subkey.  Decryption runs the same
    rounds with the subkey order reversed; the lemmas at the end show that
    this undoes encryption whatever the hash function is. */
module Feistel {
  import opened Bits

  type U32 = x: int | 0 <= x < 0x1_0000_0000
  type U64 = x: int | 0 <= x < 0x1_0000_0000_0000_0000

  /** PostgreSQL's hash_uint32.  It is a parameter of the model: nothing
      below depends on which function from 32-bit words to 32-bit words it
      is. */
  type Hash = U32 -> U32

  /** NR: the number of rounds of the network. */
  const ROUNDS: nat := 9

  /** The `direction` argument: 0 encrypts, 1 decrypts. */
  datatype Direction = Encrypt | Decrypt {
    function Opposite(): Direction {
      if this == Encrypt then Decrypt else Encrypt
    }
  }

  /** Everything a round needs besides the half blocks: the hash, the half
      block size hsz and the subkeys K0..K8 before hashing.  The model covers
      half blocks of at most 31 bits. */
  datatype Schedule = Schedule(hash: Hash, hsz: nat, subkeys: seq<U32>) {
    predicate Valid() {
      1 <= hsz <= 31 && |subkeys| == ROUNDS
    }
  }

  /** The two half blocks (l1, r1), uint32 variables in the source. */
  datatype Halves = Halves(l: U32, r: U32) {
    function Swap(): Halves {
      Halves(r, l)
    }
  }

  /** Both halves hold at most hsz significant bits. */
  predicate Fits(hsz: nat, p: Halves) {
    p.l < Pow2(hsz) && p.r < Pow2(hsz)
  }

  lemma HalfWordBound(hsz: nat)
    requires hsz <= 31
    ensures Pow2(hsz) <= 0x8000_0000
  {
    Pow2Monotone(hsz, 31);
    Pow2Constants();
  }

  /** The subkey index used in loop iteration i: i itself when encrypting,
      NR-1-i when decrypting. */
  function RoundIndex(d: Direction, i: nat): (j: nat)
    requires i < ROUNDS
    ensures j < ROUNDS
  {
    if d == Encrypt then i else ROUNDS - 1 - i
  }

  /** Kj: the key shifted right by (hsz * j) & 63, truncated to 32 bits,
      plus j modulo 2^32. */
  function Subkey(key: U64, hsz: nat, j: nat): (k: U32)
  {
    (Shr(key, (hsz * j) % 64) % 0x1_0000_0000 + j) % 0x1_0000_0000
  }

  /** The subkeys Kj, Kj+1, ..., K8. */
  function SubkeysFrom(key: U64, hsz: nat, j: nat): (ks: seq<U32>)
    requires j <= ROUNDS
    ensures |ks| == ROUNDS - j
    decreases ROUNDS - j
  {
    if j == ROUNDS then [] else [Subkey(key, hsz, j)] + SubkeysFrom(key, hsz, j + 1)
  }

  /** The schedule of one call: the rounds depend on the key only through
      these nine words, which are the same in both directions. */
  function Subkeys(key: U64, hsz: nat): (ks: seq<U32>)
    ensures |ks| == ROUNDS
  {
    SubkeysFrom(key, hsz, 0)
  }

  lemma {:induction false} SubkeysFromAt(key: U64, hsz: nat, j: nat, i: nat)
    requires j <= i < ROUNDS
    ensures SubkeysFrom(key, hsz, j)[i - j] == Subkey(key, hsz, i)
    decreases i - j
  {
    if j < i {
      SubkeysFromAt(key, hsz, j + 1, i);
    }
  }

  /** Entry j of the schedule is Kj. */
  lemma SubkeysAreWindows(key: U64, hsz: nat)
    ensures forall j :: 0 <= j < ROUNDS ==> Subkeys(key, hsz)[j] == Subkey(key, hsz, j)
  {
    forall j | 0 <= j < ROUNDS
      ensures Subkeys(key, hsz)[j] == Subkey(key, hsz, j)
    {
      SubkeysFromAt(key, hsz, 0, j);
    }
  }

  /** One round with subkey index j:
      (l1, r1) becomes (r1, (l1 ^ H(r1) ^ H(Kj)) & mask). */
  function Round(s: Schedule, j: nat, p: Halves): (q: Halves)
    requires s.Valid() && j < ROUNDS
  {
    var ki := s.subkeys[j];
    MaskedXorBound(p.l, s.hash(p.r), s.hash(ki), s.hsz);
    HalfWordBound(s.hsz);
    Halves(p.r, MaskedXor(p.l, s.hash(p.r), s.hash(ki), s.hsz))
  }

  /** A round keeps both halves within hsz bits. */
  lemma RoundFits(s: Schedule, j: nat, p: Halves)
    requires s.Valid() && j < ROUNDS && Fits(s.hsz, p)
    ensures Fits(s.hsz, Round(s, j, p))
    ensures Round(s, j, p).l == p.r
  {
    MaskedXorBound(p.l, s.hash(p.r), s.hash(s.subkeys[j]), s.hsz);
  }

  /** Loop iterations i, i+1, ..., NR-1 of the network in direction d. */
  function Network(s: Schedule, d: Direction, i: nat, p: Halves): (q: Halves)
    requires s.Valid() && i <= ROUNDS
    decreases ROUNDS - i
  {
    if i == ROUNDS then p else Network(s, d, i + 1, Round(s, RoundIndex(d, i), p))
  }

  lemma {:induction false} NetworkFits(s: Schedule, d: Direction, i: nat, p: Halves)
    requires s.Valid() && i <= ROUNDS && Fits(s.hsz, p)
    ensures Fits(s.hsz, Network(s, d, i, p))
    decreases ROUNDS - i
  {
    if i < ROUNDS {
      RoundFits(s, RoundIndex(d, i), p);
      NetworkFits(s, d, i + 1, Round(s, RoundIndex(d, i), p));
    }
  }

  /** Reference schedules: the rounds with subkey indices lo, lo+1, ...,
      hi-1 in increasing order, and the same rounds in decreasing order. */
  ghost function Ascending(s: Schedule, lo: nat, hi: nat, p: Halves): (q: Halves)
    requires s.Valid() && lo <= hi <= ROUNDS
    decreases hi - lo
  {
    if lo == hi then p else Ascending(s, lo + 1, hi, Round(s, lo, p))
  }

  ghost function Descending(s: Schedule, lo: nat, hi: nat, p: Halves): (q: Halves)
    requires s.Valid() && lo <= hi <= ROUNDS
    decreases hi - lo
  {
    if lo == hi then p else Descending(s, lo, hi - 1, Round(s, hi - 1, p))
  }

  lemma {:induction false} AscendingFits(s: Schedule, lo: nat, hi: nat, p: Halves)
    requires s.Valid() && lo <= hi <= ROUNDS && Fits(s.hsz, p)
    ensures Fits(s.hsz, Ascending(s, lo, hi, p))
    decreases hi - lo
  {
    if lo < hi {
      RoundFits(s, lo, p);
      AscendingFits(s, lo + 1, hi, Round(s, lo, p));
    }
  }

  lemma {:induction false} DescendingFits(s: Schedule, lo: nat, hi: nat, p: Halves)
    requires s.Valid() && lo <= hi <= ROUNDS && Fits(s.hsz, p)
    ensures Fits(s.hsz, Descending(s, lo, hi, p))
    decreases hi - lo
  {
    if lo < hi {
      RoundFits(s, hi - 1, p);
      DescendingFits(s, lo, hi - 1, Round(s, hi - 1, p));
    }
  }

  /** Encryption applies the subkeys in increasing order. */
  lemma {:induction false} EncryptAscends(s: Schedule, i: nat, p: Halves)
    requires s.Valid() && i <= ROUNDS
    ensures Network(s, Encrypt, i, p) == Ascending(s, i, ROUNDS, p)
    decreases ROUNDS - i
  {
    if i < ROUNDS {
      EncryptAscends(s, i + 1, Round(s, i, p));
    }
  }

  /** Decryption applies the subkeys in decreasing order: iterations i..NR-1
      use subkeys NR-1-i down to 0. */
  lemma {:induction false} DecryptDescends(s: Schedule, i: nat, p: Halves)
    requires s.Valid() && i <= ROUNDS
    ensures Network(s, Decrypt, i, p) == Descending(s, 0, ROUNDS - i, p)
    decreases ROUNDS - i
  {
    if i < ROUNDS {
      DecryptDescends(s, i + 1, Round(s, ROUNDS - 1 - i, p));
    }
  }

  lemma {:induction false} AscendingLast(s: Schedule, lo: nat, hi: nat, p: Halves)
    requires s.Valid() && lo < hi <= ROUNDS
    ensures Ascending(s, lo, hi, p) == Round(s, hi - 1, Ascending(s, lo, hi - 1, p))
    decreases hi - lo
  {
    if lo + 1 < hi {
      AscendingLast(s, lo + 1, hi, Round(s, lo, p));
    }
  }

  lemma {:induction false} DescendingLast(s: Schedule, lo: nat, hi: nat, p: Halves)
    requires s.Valid() && lo < hi <= ROUNDS
    ensures Descending(s, lo, hi, p) == Round(s, lo, Descending(s, lo + 1, hi, p))
    decreases hi - lo
  {
    if lo + 1 < hi {
      DescendingLast(s, lo, hi - 1, Round(s, hi - 1, p));
    }
  }

  /** A round is undone by the same round applied to the swapped output,
      followed by a swap. */
  lemma RoundInverse(s: Schedule, j: nat, p: Halves)
    requires s.Valid() && j < ROUNDS && Fits(s.hsz, p)
    ensures Round(s, j, Round(s, j, p).Swap()) == p.Swap()
  {
    MaskedXorTwice(p.l, s.hash(p.r), s.hash(s.subkeys[j]), s.hsz);
  }

  lemma {:induction false} DescendingUndoesAscending(s: Schedule, lo: nat, hi: nat, p: Halves)
    requires s.Valid() && lo <= hi <= ROUNDS && Fits(s.hsz, p)
    ensures Descending(s, lo, hi, Ascending(s, lo, hi, p).Swap()) == p.Swap()
    decreases hi - lo
  {
    if lo < hi {
      var x := Ascending(s, lo, hi - 1, p);
      AscendingLast(s, lo, hi, p);
      AscendingFits(s, lo, hi - 1, p);
      RoundInverse(s, hi - 1, x);
      DescendingUndoesAscending(s, lo, hi - 1, p);
    }
  }

  lemma {:induction false} AscendingUndoesDescending(s: Schedule, lo: nat, hi: nat, p: Halves)
    requires s.Valid() && lo <= hi <= ROUNDS && Fits(s.hsz, p)
    ensures Ascending(s, lo, hi, Descending(s, lo, hi, p).Swap()) == p.Swap()
    decreases hi - lo
  {
    if lo < hi {
      var y := Descending(s, lo + 1, hi, p);
      DescendingLast(s, lo, hi, p);
      DescendingFits(s, lo + 1, hi, p);
      RoundInverse(s, lo, y);
      AscendingUndoesDescending(s, lo + 1, hi, p);
    }
  }

  /** Running the network in the opposite direction on the swapped output
      gives back the swapped input, in both directions.  The swaps are the
      ones the source performs between its output and the next pass. */
  lemma NetworkInverse(s: Schedule, d: Direction, p: Halves)
    requires s.Valid() && Fits(s.hsz, p)
    ensures Network(s, d.Opposite(), 0, Network(s, d, 0, p).Swap()) == p.Swap()
  {
    if d == Encrypt {
      EncryptAscends(s, 0, p);
      DecryptDescends(s, 0, Network(s, d, 0, p).Swap());
      DescendingUndoesAscending(s, 0, ROUNDS, p);
    } else {
      DecryptDescends(s, 0, p);
      EncryptAscends(s, 0, Network(s, d, 0, p).Swap());
      AscendingUndoesDescending(s, 0, ROUNDS, p);
    }
  }
}
