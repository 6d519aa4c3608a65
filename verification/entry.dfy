/** The SQL-callable functions of the extension, reduced to the checks they
    make before handing a value to cycle_walking_cipher.  The sequence
    bounds and the sequence's next value, which the source reads from the
    database, are parameters here, and so is the hash function.  A raised
    error is an Err outcome. */
module Permuteseq {
  import opened Bits
  import opened Types
  import opened Feistel
  import opened Walking
  import opened CycleWalk

  /** 2^64: the modulus of the source's 64-bit arithmetic. */
  const TWO_64: int := 0x1_0000_0000_0000_0000

  /** check_sequence_range(minv, maxv): whether maxv - minv >= 3, with the
      two differences that do not fit in an int64 answered without
      subtracting.  The subtraction in the last line is checked not to
      overflow. */
  function CheckSequenceRange(minv: int64, maxv: int64): (ok: bool)
    ensures ok <==> maxv as int - minv as int >= 3 || maxv as int - minv as int < INT64_MIN as int
    ensures INT64_MIN as int <= maxv as int - minv as int <= INT64_MAX as int ==> (ok <==> maxv as int - minv as int >= 3)
    ensures minv <= maxv ==> (ok <==> maxv as int - minv as int >= 3)
    ensures maxv as int - minv as int < INT64_MIN as int ==> ok
  {
    if (minv > 0 && maxv < INT64_MIN + minv) || (minv < 0 && maxv > INT64_MAX + minv) then
      true
    else
      maxv - minv >= 4 - 1
  }

  /** The interval [minval, maxval] holds value. */
  predicate InRange(minval: int64, maxval: int64, value: int64) {
    minval <= value <= maxval
  }

  /** permute_nextval(seq, key), given the bounds of the sequence and the
      value nextval(seq) returned: the sequence must span at least four
      values, nextval must lie inside it, and the result is its encryption. */
  function PermuteNextval(hash: Hash, minval: int64, maxval: int64, nextval: int64, key: U64): (r: Outcome)
    requires InRange(minval, maxval, nextval) ==> IntervalModelled(minval, maxval)
    ensures r == Err(SequenceTooShortToEncrypt)
        <==> INT64_MIN as int <= maxval as int - minval as int < 3
    ensures r == Err(NextvalOutsideInterval)
        <==> CheckSequenceRange(minval, maxval) && !InRange(minval, maxval, nextval)
    ensures r.Ok? ==> InRange(minval, maxval, r.value)
    ensures r == Err(InfiniteCycleWalking) ==> InRange(minval, maxval, nextval)
    ensures r.Err? ==> r.error in {SequenceTooShortToEncrypt, NextvalOutsideInterval, InfiniteCycleWalking}
  {
    if !CheckSequenceRange(minval, maxval) then
      Err(SequenceTooShortToEncrypt)
    else if nextval < minval || nextval > maxval then
      Err(NextvalOutsideInterval)
    else
      CycleWalkingCipher(hash, minval, maxval, nextval, key, Encrypt)
  }

  /** maxval - minval as the source computes it: a 64-bit subtraction that
      wraps around when the true difference does not fit. */
  function Span(minval: int64, maxval: int64): (d: int64)
    ensures INT64_MIN as int <= maxval as int - minval as int <= INT64_MAX as int ==> d as int == maxval as int - minval as int
    ensures maxval as int - minval as int < INT64_MIN as int ==> d as int == maxval as int - minval as int + TWO_64
    ensures maxval as int - minval as int > INT64_MAX as int ==> d as int == maxval as int - minval as int - TWO_64
  {
    WrapDifference(maxval as int - minval as int);
    Wrap(maxval as int - minval as int)
  }

  /** A difference of two int64 values that does not fit wraps by 2^64. */
  lemma WrapDifference(x: int)
    requires INT64_MIN as int - INT64_MAX as int <= x <= INT64_MAX as int - INT64_MIN as int
    ensures x < INT64_MIN as int ==> Wrap(x) as int == x + TWO_64
    ensures x > INT64_MAX as int ==> Wrap(x) as int == x - TWO_64
  {
    if x < INT64_MIN as int {
      DivModUnique(x + 0x8000_0000_0000_0000, TWO_64, -1, x + 0x8000_0000_0000_0000 + TWO_64);
    } else if x > INT64_MAX as int {
      DivModUnique(x + 0x8000_0000_0000_0000, TWO_64, 1, x + 0x8000_0000_0000_0000 - TWO_64);
    }
  }

  /** The decryption guard: the sequence is refused when the wrapped
      difference maxval - minval is below 4. */
  predicate TooShortToDecrypt(minval: int64, maxval: int64) {
    Span(minval, maxval) < 4
  }

  /** reverse_permute(seq, value, key), given the bounds of the sequence:
      the sequence must satisfy maxval - minval >= 4 (a stricter test than
      permute_nextval's), value must lie inside it, and the result is its
      decryption. */
  function ReversePermute(hash: Hash, minval: int64, maxval: int64, value: int64, key: U64): (r: Outcome)
    requires InRange(minval, maxval, value) && !TooShortToDecrypt(minval, maxval) ==> IntervalModelled(minval, maxval)
    ensures r == Err(SequenceTooShortToDecrypt)
        <==> || INT64_MIN as int <= maxval as int - minval as int < 4
             || maxval as int - minval as int < 4 - TWO_64
             || maxval as int - minval as int > INT64_MAX as int
    ensures INT64_MIN as int <= maxval as int - minval as int <= INT64_MAX as int
        ==> (r == Err(SequenceTooShortToDecrypt) <==> maxval as int - minval as int < 4)
    ensures r == Err(ValueOutOfSequenceBounds)
        <==> !TooShortToDecrypt(minval, maxval) && !InRange(minval, maxval, value)
    ensures r.Ok? ==> InRange(minval, maxval, r.value)
    ensures r == Err(InfiniteCycleWalking) ==> InRange(minval, maxval, value)
    ensures r.Err? ==> r.error in {SequenceTooShortToDecrypt, ValueOutOfSequenceBounds, InfiniteCycleWalking}
  {
    if TooShortToDecrypt(minval, maxval) then
      Err(SequenceTooShortToDecrypt)
    else if value < minval || value > maxval then
      Err(ValueOutOfSequenceBounds)
    else
      CycleWalkingCipher(hash, minval, maxval, value, key, Decrypt)
  }

  /** range_encrypt_element(clearval, minval, maxval, key): any interval
      is accepted, as long as clearval lies inside it. */
  function RangeEncryptElement(hash: Hash, clearval: int64, minval: int64, maxval: int64, key: U64): (r: Outcome)
    requires InRange(minval, maxval, clearval) ==> IntervalModelled(minval, maxval)
    ensures r == Err(ValueOutsideRange) <==> !InRange(minval, maxval, clearval)
    ensures r.Ok? ==> InRange(minval, maxval, r.value)
    ensures r.Err? ==> r.error in {ValueOutsideRange, InfiniteCycleWalking}
  {
    if clearval < minval || clearval > maxval then
      Err(ValueOutsideRange)
    else
      CycleWalkingCipher(hash, minval, maxval, clearval, key, Encrypt)
  }

  /** range_decrypt_element(val, minval, maxval, key). */
  function RangeDecryptElement(hash: Hash, val: int64, minval: int64, maxval: int64, key: U64): (r: Outcome)
    requires InRange(minval, maxval, val) ==> IntervalModelled(minval, maxval)
    ensures r == Err(ValueOutsideRange) <==> !InRange(minval, maxval, val)
    ensures r.Ok? ==> InRange(minval, maxval, r.value)
    ensures r.Err? ==> r.error in {ValueOutsideRange, InfiniteCycleWalking}
  {
    if val < minval || val > maxval then
      Err(ValueOutsideRange)
    else
      CycleWalkingCipher(hash, minval, maxval, val, key, Decrypt)
  }

  /** Decrypting an encrypted element with the same bounds and key gives
      the element back. */
  lemma RangeRoundTrip(hash: Hash, x: int64, minval: int64, maxval: int64, key: U64)
    requires InRange(minval, maxval, x) ==> IntervalModelled(minval, maxval)
    ensures var r := RangeEncryptElement(hash, x, minval, maxval, key);
      r.Ok? ==> RangeDecryptElement(hash, r.value, minval, maxval, key) == Ok(x)
  {
    if InRange(minval, maxval, x) {
      CipherRoundTrip(hash, minval, maxval, x, key, Encrypt);
    }
  }

  /** Encrypting a decrypted element gives the element back. */
  lemma RangeRoundTripBack(hash: Hash, y: int64, minval: int64, maxval: int64, key: U64)
    requires InRange(minval, maxval, y) ==> IntervalModelled(minval, maxval)
    ensures var r := RangeDecryptElement(hash, y, minval, maxval, key);
      r.Ok? ==> RangeEncryptElement(hash, r.value, minval, maxval, key) == Ok(y)
  {
    if InRange(minval, maxval, y) {
      CipherRoundTrip(hash, minval, maxval, y, key, Decrypt);
    }
  }

  /** Hence range_encrypt_element is a bijection between the elements it
      encrypts and the elements range_decrypt_element decrypts: distinct
      elements never share a result, and every decryptable element is the
      encryption of something. */
  lemma RangeEncryptInjective(hash: Hash, x1: int64, x2: int64, minval: int64, maxval: int64, key: U64)
    requires IntervalModelled(minval, maxval)
    ensures var r1, r2 := RangeEncryptElement(hash, x1, minval, maxval, key), RangeEncryptElement(hash, x2, minval, maxval, key);
      r1.Ok? && r1 == r2 ==> x1 == x2
  {
    RangeRoundTrip(hash, x1, minval, maxval, key);
    RangeRoundTrip(hash, x2, minval, maxval, key);
  }

  /** On a sequence of at least five values, reverse_permute undoes
      permute_nextval. */
  lemma PermuteRoundTrip(hash: Hash, minval: int64, maxval: int64, nextval: int64, key: U64)
    requires InRange(minval, maxval, nextval) ==> IntervalModelled(minval, maxval)
    requires maxval as int - minval as int >= 4
    ensures var r := PermuteNextval(hash, minval, maxval, nextval, key);
      r.Ok? ==> ReversePermute(hash, minval, maxval, r.value, key) == Ok(nextval)
  {
    if InRange(minval, maxval, nextval) {
      CipherRoundTrip(hash, minval, maxval, nextval, key, Encrypt);
    }
  }

  /** Whatever reverse_permute decrypts, permute_nextval encrypts back. */
  lemma ReverseRoundTrip(hash: Hash, minval: int64, maxval: int64, value: int64, key: U64)
    requires InRange(minval, maxval, value) ==> IntervalModelled(minval, maxval)
    ensures var r := ReversePermute(hash, minval, maxval, value, key);
      r.Ok? ==> PermuteNextval(hash, minval, maxval, r.value, key) == Ok(value)
  {
    if InRange(minval, maxval, value) {
      CipherRoundTrip(hash, minval, maxval, value, key, Decrypt);
    }
  }

  /** An inverted interval (maxval < minval) never reaches the cipher:
      each entry point raises one of its argument errors. */
  lemma InvertedRangeRejected(hash: Hash, minval: int64, maxval: int64, value: int64, key: U64)
    requires maxval < minval
    ensures PermuteNextval(hash, minval, maxval, value, key).Err?
    ensures PermuteNextval(hash, minval, maxval, value, key).error != InfiniteCycleWalking
    ensures ReversePermute(hash, minval, maxval, value, key).Err?
    ensures ReversePermute(hash, minval, maxval, value, key).error != InfiniteCycleWalking
    ensures RangeEncryptElement(hash, value, minval, maxval, key) == Err(ValueOutsideRange)
    ensures RangeDecryptElement(hash, value, minval, maxval, key) == Err(ValueOutsideRange)
  {
  }

  /** A sequence of exactly four values: permute_nextval always succeeds
      on it (the interval fills the block of a one-bit half block, so no
      pass leaves it), but reverse_permute refuses every value. */
  lemma FourValueSequenceIrreversible(hash: Hash, minval: int64, maxval: int64, nextval: int64, key: U64)
    requires maxval as int == minval as int + 3 && InRange(minval, maxval, nextval)
    ensures PermuteNextval(hash, minval, maxval, nextval, key).Ok?
    ensures var y := PermuteNextval(hash, minval, maxval, nextval, key).value;
      ReversePermute(hash, minval, maxval, y, key) == Err(SequenceTooShortToDecrypt)
  {
    assert BlockSize(1) == 4;
    CipherFullBlock(hash, minval, maxval, nextval, key, Encrypt, 1);
  }

  /** reverse_permute with the sequence-length test of permute_nextval. */
  function ReversePermuteCorrected(hash: Hash, minval: int64, maxval: int64, value: int64, key: U64): (r: Outcome)
    requires InRange(minval, maxval, value) ==> IntervalModelled(minval, maxval)
    ensures r == Err(SequenceTooShortToDecrypt)
        <==> INT64_MIN as int <= maxval as int - minval as int < 3
    ensures r == Err(ValueOutOfSequenceBounds)
        <==> CheckSequenceRange(minval, maxval) && !InRange(minval, maxval, value)
    ensures r.Ok? ==> InRange(minval, maxval, r.value)
  {
    if !CheckSequenceRange(minval, maxval) then
      Err(SequenceTooShortToDecrypt)
    else if value < minval || value > maxval then
      Err(ValueOutOfSequenceBounds)
    else
      CycleWalkingCipher(hash, minval, maxval, value, key, Decrypt)
  }

  /** With the corrected test, every result of permute_nextval is reversed,
      whatever the length of the sequence. */
  lemma PermuteRoundTripCorrected(hash: Hash, minval: int64, maxval: int64, nextval: int64, key: U64)
    requires InRange(minval, maxval, nextval) ==> IntervalModelled(minval, maxval)
    ensures var r := PermuteNextval(hash, minval, maxval, nextval, key);
      r.Ok? ==> ReversePermuteCorrected(hash, minval, maxval, r.value, key) == Ok(nextval)
  {
    if InRange(minval, maxval, nextval) {
      CipherRoundTrip(hash, minval, maxval, nextval, key, Encrypt);
    }
  }

  /** Whenever maxval - minval fits in an int64 (inverted bounds included),
      the corrected function differs from reverse_permute only on sequences
      of exactly four values. */
  lemma CorrectedAgrees(hash: Hash, minval: int64, maxval: int64, value: int64, key: U64)
    requires InRange(minval, maxval, value) ==> IntervalModelled(minval, maxval)
    requires INT64_MIN as int <= maxval as int - minval as int <= INT64_MAX as int && maxval as int - minval as int != 3
    ensures ReversePermuteCorrected(hash, minval, maxval, value, key) == ReversePermute(hash, minval, maxval, value, key)
  {
  }
}
