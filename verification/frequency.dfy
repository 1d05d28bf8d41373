/** Frequency attack of DodatnaNaloga.py: split the ciphertext into one
    interleaved slice per key position, take the most common byte of each
    slice as the image of the space character, and decrypt with the key so
    recovered. */
module FrequencyAttack {
  import opened Base
  import ByteCipher

  /** `decrypt(data, key)` before its UTF-8 decode: one byte per input byte,
      the key byte subtracted modulo 256. An empty key only fails once the
      loop reaches its first byte, where `i % len(key)` divides by zero. */
  function Decrypt(data: seq<Byte>, key: seq<Byte>): (r: Result<seq<Byte>>)
    ensures r.Failure? <==> |key| == 0 && |data| > 0
    ensures r.Failure? ==> r.error == ModuloByZero
    ensures r.Success? ==> |r.value| == |data|
  {
    if |data| == 0 then Success([])
    else if |key| == 0 then Failure(ModuloByZero)
    else Success(seq(|data|, i requires 0 <= i < |data| => (data[i] as int - key[i % |key|]) % 256))
  }

  /** Byte `i` of a decryption is byte `i` of the input minus the key byte
      at `i % |key|`, modulo 256. */
  lemma DecryptBytes(data: seq<Byte>, key: seq<Byte>)
    requires |key| > 0
    ensures Decrypt(data, key).Success?
    ensures forall i :: 0 <= i < |data| ==>
      Decrypt(data, key).value[i] == (data[i] as int - key[i % |key|]) % 256
  {
  }

  /** `decrypt` computes the same bytes as the byte mode of `vigenere` in
      any decrypting mode. */
  lemma DecryptAgreesWithByteMode(data: seq<Byte>, key: seq<Byte>, mode: string)
    requires |key| > 0
    requires !IsEncrypt(mode)
    ensures Decrypt(data, key) == ByteCipher.Vigenere(data, key, mode)
  {
    assert Decrypt(data, key).value == ByteCipher.Vigenere(data, key, mode).value;
  }

  /** `data[start::step]`. */
  function Slice<T>(data: seq<T>, start: nat, step: nat): seq<T>
    requires step >= 1
    decreases |data| - start
  {
    if start >= |data| then [] else [data[start]] + Slice(data, start + step, step)
  }

  /** The m-th element of a slice is the element `m` steps past its start. */
  lemma {:induction false} SliceElements<T>(data: seq<T>, start: nat, step: nat)
    requires step >= 1
    ensures forall m :: 0 <= m < |Slice(data, start, step)| ==>
      start + m * step < |data| && Slice(data, start, step)[m] == data[start + m * step]
    decreases |data| - start
  {
    if start < |data| {
      SliceElements(data, start + step, step);
      var r := Slice(data, start, step);
      forall m | 1 <= m < |r|
        ensures start + m * step < |data| && r[m] == data[start + m * step]
      {
        assert r[m] == Slice(data, start + step, step)[m - 1];
        assert start + m * step == (start + step) + (m - 1) * step;
      }
    }
  }

  /** Every element `m` steps past the start lies in the slice. */
  lemma {:induction false} SliceCovers<T>(data: seq<T>, start: nat, step: nat, m: nat)
    requires step >= 1
    requires start + m * step < |data|
    ensures m < |Slice(data, start, step)|
    decreases m
  {
    if m > 0 {
      assert (start + step) + (m - 1) * step == start + m * step;
      SliceCovers(data, start + step, step, m - 1);
    }
  }

  /** The length Python gives `data[start::step]`: the number of positions
      `start`, `start + step`, ... below `len(data)`. */
  lemma {:induction false} SliceLengthFormula<T>(data: seq<T>, start: nat, step: nat)
    requires step >= 1
    ensures |Slice(data, start, step)| == if start < |data| then (|data| - start - 1) / step + 1 else 0
    decreases |data| - start
  {
    if start < |data| {
      SliceLengthFormula(data, start + step, step);
      var x := |data| - start - 1;
      if start + step < |data| {
        DivStep(x, step);
      } else {
        DivSmall(x, step);
      }
    }
  }

  lemma DivStep(x: int, n: int)
    requires 1 <= n <= x
    ensures (x - n) / n == x / n - 1
  {
    var q := x / n - 1;
    assert x == (x / n) * n + x % n;
    assert x - n == q * n + x % n;
    assert 0 <= x % n < n;
    DivUnique(x - n, n, q, x % n);
  }

  lemma DivSmall(x: int, n: int)
    requires 0 <= x < n
    ensures x / n == 0
  {
    DivUnique(x, n, 0, x);
  }

  /** Slices of sequences of the same length have the same length. */
  lemma {:induction false} SliceLength<T, U>(a: seq<T>, b: seq<U>, start: nat, step: nat)
    requires step >= 1
    requires |a| == |b|
    ensures |Slice(a, start, step)| == |Slice(b, start, step)|
    decreases |a| - start
  {
    if start < |a| {
      SliceLength(a, b, start + step, step);
    }
  }

  /** The `k` slices partition the data: slice `s` holds exactly the
      positions congruent to `s` modulo `k`, in order, and position `j`
      sits in slice `j % k` at index `j / k`. */
  lemma SlicesPartition<T>(data: seq<T>, k: nat)
    requires k >= 1
    ensures forall s, m :: 0 <= s < k && 0 <= m < |Slice(data, s, k)| ==>
      s + m * k < |data| && (s + m * k) % k == s && Slice(data, s, k)[m] == data[s + m * k]
    ensures forall j :: 0 <= j < |data| ==>
      j / k < |Slice(data, j % k, k)| && Slice(data, j % k, k)[j / k] == data[j]
  {
    forall s: nat | s < k
      ensures forall m :: 0 <= m < |Slice(data, s, k)| ==>
        s + m * k < |data| && (s + m * k) % k == s && Slice(data, s, k)[m] == data[s + m * k]
    {
      SliceResidues(data, s, k);
    }
    forall j | 0 <= j < |data|
      ensures j / k < |Slice(data, j % k, k)| && Slice(data, j % k, k)[j / k] == data[j]
    {
      SlicePosition(data, j, k);
    }
  }

  lemma SliceResidues<T>(data: seq<T>, s: nat, k: nat)
    requires s < k
    ensures forall m :: 0 <= m < |Slice(data, s, k)| ==>
      s + m * k < |data| && (s + m * k) % k == s && Slice(data, s, k)[m] == data[s + m * k]
  {
    SliceElements(data, s, k);
    forall m | 0 <= m < |Slice(data, s, k)| ensures (s + m * k) % k == s {
      ModMultiple(s, m, k);
    }
  }

  lemma SlicePosition<T>(data: seq<T>, j: nat, k: nat)
    requires j < |data| && k >= 1
    ensures j / k < |Slice(data, j % k, k)| && Slice(data, j % k, k)[j / k] == data[j]
  {
    assert j % k + (j / k) * k == j;
    SliceCovers(data, j % k, k, j / k);
    SliceElements(data, j % k, k);
  }

  /** How often byte `b` occurs in `s`. */
  function Count(s: seq<Byte>, b: Byte): nat {
    multiset(s)[b]
  }

  /** Index, among the first `n` positions, of the first byte whose count in
      the whole of `s` is maximal: the scan keeps the earlier byte on ties. */
  function FirstMax(s: seq<Byte>, n: nat): (r: nat)
    requires 0 < n <= |s|
    ensures r < n
    ensures forall j :: 0 <= j < n ==> Count(s, s[j]) <= Count(s, s[r])
    ensures forall j :: 0 <= j < r ==> Count(s, s[j]) < Count(s, s[r])
  {
    if n == 1 then 0
    else
      var best := FirstMax(s, n - 1);
      if Count(s, s[n - 1]) > Count(s, s[best]) then n - 1 else best
  }

  /** `Counter(s).most_common(1)[0][0]`. */
  function MostCommon(s: seq<Byte>): (r: Byte)
    requires |s| > 0
    ensures r in s
  {
    s[FirstMax(s, |s|)]
  }

  /** The most common byte occurs at least as often as any other byte. */
  lemma MostCommonIsArgmax(s: seq<Byte>)
    requires |s| > 0
    ensures forall b: Byte :: Count(s, b) <= Count(s, MostCommon(s))
  {
    var i := FirstMax(s, |s|);
    assert forall b: Byte :: b in s ==> Count(s, b) <= Count(s, s[i]);
  }

  /** Counter lists bytes in order of first occurrence and the first maximal
      item wins, so among the bytes of maximal count the most common byte is
      the one that occurs first. */
  lemma MostCommonTieBreak(s: seq<Byte>)
    requires |s| > 0
    ensures forall j :: 0 <= j < |s| && Count(s, s[j]) == Count(s, MostCommon(s)) ==>
      MostCommon(s) in s[..j + 1]
  {
    var i := FirstMax(s, |s|);
    assert forall j :: 0 <= j < |s| && Count(s, s[j]) == Count(s, s[i]) ==> i <= j && s[..j + 1][i] == s[i];
  }

  /** The key byte recovered from slice `s`: the offset of its most common
      byte from the space character. */
  function KeyByte(data: seq<Byte>, s: nat, keyLength: nat): (r: Byte)
    requires s < keyLength <= |data|
    ensures |Slice(data, s, keyLength)| > 0
    ensures (r + Space) % 256 == MostCommon(Slice(data, s, keyLength))
  {
    var common := MostCommon(Slice(data, s, keyLength));
    ModCancel(common as int, Space as int, 256);
    (common - Space) % 256
  }

  /** `find_key(data, key_length)`. A non-positive length gives an empty
      range and so an empty key; a length beyond the data leaves a slice
      empty, whose `most_common(1)[0]` raises IndexError. */
  function FindKey(data: seq<Byte>, keyLength: int): (r: Result<seq<Byte>>)
    ensures keyLength <= 0 ==> r == Success([])
    ensures keyLength > |data| ==> r == Failure(NoMostCommon)
    ensures 1 <= keyLength <= |data| ==> r.Success? && |r.value| == keyLength
    ensures 1 <= keyLength <= |data| ==>
      forall s :: 0 <= s < keyLength ==>
        |Slice(data, s, keyLength)| > 0 &&
        (r.value[s] + Space) % 256 == MostCommon(Slice(data, s, keyLength))
  {
    if keyLength <= 0 then Success([])
    else if keyLength > |data| then Failure(NoMostCommon)
    else Success(seq(keyLength, s requires 0 <= s < keyLength => KeyByte(data, s, keyLength)))
  }

  /** The pure part of `break_vigenere`: recover a key, then decrypt with it. */
  function BreakVigenere(data: seq<Byte>, keyLength: int): (r: Result<seq<Byte>>)
    ensures 1 <= keyLength <= |data| ==> r.Success? && |r.value| == |data|
    ensures keyLength > |data| ==> r == Failure(NoMostCommon)
    ensures keyLength <= 0 ==> (r.Success? <==> |data| == 0)
  {
    match FindKey(data, keyLength)
    case Failure(e) => Failure(e)
    case Success(key) => Decrypt(data, key)
  }

  /** Every byte of `xs` moved by `d` modulo 256. */
  function ShiftAll(xs: seq<Byte>, d: int): (r: seq<Byte>)
    ensures |r| == |xs|
  {
    seq(|xs|, i requires 0 <= i < |xs| => (xs[i] as int + d) % 256)
  }

  /** The key byte as it is applied: added when encrypting, subtracted when decrypting. */
  function Signed(k: Byte, encrypt: bool): int {
    if encrypt then k as int else -(k as int)
  }

  lemma ShiftByteIff(x: Byte, d: int, b: Byte)
    ensures (x as int + d) % 256 == b <==> x == (b as int - d) % 256
  {
    ModCancel(x as int, d, 256);
    ModCancel(b as int, d, 256);
  }

  /** Moving all bytes by `d` modulo 256 is a bijection on bytes, so the
      count of `b` afterwards is the count of `b - d` before. */
  lemma {:induction false} CountShift(xs: seq<Byte>, d: int, b: Byte)
    ensures Count(ShiftAll(xs, d), b) == Count(xs, (b as int - d) % 256)
  {
    if |xs| > 0 {
      CountShift(xs[1..], d, b);
      assert ShiftAll(xs, d) == [(xs[0] as int + d) % 256] + ShiftAll(xs[1..], d);
      assert xs == [xs[0]] + xs[1..];
      ShiftByteIff(xs[0], d, b);
    }
  }

  /** When `out` shifts `data` position by position with a repeating key,
      slice `s` of `out` is slice `s` of `data` shifted by the one key byte
      `key[s]`: every position of the slice uses that same key byte. */
  lemma SliceOfShifted(data: seq<Byte>, out: seq<Byte>, key: seq<Byte>, encrypt: bool, s: nat)
    requires s < |key|
    requires |out| == |data|
    requires forall i :: 0 <= i < |data| ==>
      out[i] == (data[i] as int + Signed(key[i % |key|], encrypt)) % 256
    ensures Slice(out, s, |key|) == ShiftAll(Slice(data, s, |key|), Signed(key[s], encrypt))
  {
    var k := |key|;
    SliceLength(out, data, s, k);
    SliceElements(out, s, k);
    SliceElements(data, s, k);
    var shifted := ShiftAll(Slice(data, s, k), Signed(key[s], encrypt));
    forall m | 0 <= m < |Slice(out, s, k)|
      ensures Slice(out, s, k)[m] == shifted[m]
    {
      ModMultiple(s, m, k);
    }
  }

  /** A slot whose most common byte is `k + space` holds, once shifted back
      by `k`, no byte more often than the space. */
  lemma SlotAfterDecrypt(slot: seq<Byte>, k: Byte)
    requires |slot| > 0
    requires (k + Space) % 256 == MostCommon(slot)
    ensures forall b: Byte ::
      Count(ShiftAll(slot, Signed(k, false)), b) <= Count(ShiftAll(slot, Signed(k, false)), Space)
  {
    var d := Signed(k, false);
    var common := MostCommon(slot);
    MostCommonIsArgmax(slot);
    assert (Space as int - d) % 256 == common;
    CountShift(slot, d, Space);
    forall b: Byte
      ensures Count(ShiftAll(slot, d), b) <= Count(ShiftAll(slot, d), Space)
    {
      var pre: Byte := (b as int - d) % 256;
      assert Count(slot, pre) <= Count(slot, common);
      CountShift(slot, d, b);
    }
  }

  /** Slot `s` of a decryption is slot `s` of the ciphertext moved back by `key[s]`. */
  lemma SliceOfDecrypt(data: seq<Byte>, key: seq<Byte>, s: nat)
    requires s < |key|
    ensures Decrypt(data, key).Success?
    ensures Slice(Decrypt(data, key).value, s, |key|) == ShiftAll(Slice(data, s, |key|), Signed(key[s], false))
  {
    var plain := Decrypt(data, key).value;
    DecryptBytes(data, key);
    forall i | 0 <= i < |data|
      ensures plain[i] == (data[i] as int + Signed(key[i % |key|], false)) % 256
    {
    }
    SliceOfShifted(data, plain, key, false, s);
  }

  /** Slot `s` of a byte-mode encryption is slot `s` of the plaintext moved by `key[s]`. */
  lemma SliceOfEncrypt(plain: seq<Byte>, key: seq<Byte>, s: nat)
    requires s < |key|
    ensures ByteCipher.Vigenere(plain, key, "encrypt").Success?
    ensures Slice(ByteCipher.Vigenere(plain, key, "encrypt").value, s, |key|) ==
            ShiftAll(Slice(plain, s, |key|), Signed(key[s], true))
  {
    var cipher := ByteCipher.Vigenere(plain, key, "encrypt").value;
    ByteCipher.ShiftsEachByte(plain, key, "encrypt");
    forall i | 0 <= i < |plain|
      ensures cipher[i] == (plain[i] as int + Signed(key[i % |key|], true)) % 256
    {
    }
    SliceOfShifted(plain, cipher, key, true, s);
  }

  /** After `find_key` and `decrypt`, the space character is a most common
      byte of every slot of the recovered text. */
  lemma SpaceDominatesAfterBreak(data: seq<Byte>, keyLength: int)
    requires 1 <= keyLength <= |data|
    ensures BreakVigenere(data, keyLength).Success?
    ensures forall s, b: Byte :: 0 <= s < keyLength ==>
      Count(Slice(BreakVigenere(data, keyLength).value, s, keyLength), b) <=
      Count(Slice(BreakVigenere(data, keyLength).value, s, keyLength), Space)
  {
    forall s | 0 <= s < keyLength
      ensures forall b: Byte ::
        Count(Slice(BreakVigenere(data, keyLength).value, s, keyLength), b) <=
        Count(Slice(BreakVigenere(data, keyLength).value, s, keyLength), Space)
    {
      BreakSlot(data, keyLength, s);
    }
  }

  lemma BreakSlot(data: seq<Byte>, keyLength: int, s: nat)
    requires 1 <= keyLength <= |data|
    requires s < keyLength
    ensures BreakVigenere(data, keyLength).Success?
    ensures forall b: Byte ::
      Count(Slice(BreakVigenere(data, keyLength).value, s, keyLength), b) <=
      Count(Slice(BreakVigenere(data, keyLength).value, s, keyLength), Space)
  {
    var key := FindKey(data, keyLength).value;
    assert BreakVigenere(data, keyLength) == Decrypt(data, key);
    DecryptedSlot(data, key, s);
  }

  /** Decrypting with a key byte that maps the slot's most common byte to
      space leaves no byte of that slot more common than space. */
  lemma DecryptedSlot(data: seq<Byte>, key: seq<Byte>, s: nat)
    requires s < |key|
    requires |Slice(data, s, |key|)| > 0
    requires (key[s] + Space) % 256 == MostCommon(Slice(data, s, |key|))
    ensures Decrypt(data, key).Success?
    ensures forall b: Byte ::
      Count(Slice(Decrypt(data, key).value, s, |key|), b) <= Count(Slice(Decrypt(data, key).value, s, |key|), Space)
  {
    SliceOfDecrypt(data, key, s);
    SlotAfterDecrypt(Slice(data, s, |key|), key[s]);
  }

  /** Space is strictly the most common byte in every one of the `k` slots. */
  predicate SpaceDominant(plain: seq<Byte>, k: nat)
    requires k >= 1
  {
    forall s, b: Byte :: 0 <= s < k && b != Space ==>
      Count(Slice(plain, s, k), b) < Count(Slice(plain, s, k), Space)
  }

  /** A slot in which space strictly dominates, shifted by `k`, has `space + k`
      as its most common byte. */
  lemma SlotRecovery(source: seq<Byte>, k: Byte)
    requires forall b: Byte :: b != Space ==> Count(source, b) < Count(source, Space)
    ensures |ShiftAll(source, k)| > 0
    ensures MostCommon(ShiftAll(source, k)) == (Space + k) % 256
  {
    assert Count(source, 0) < Count(source, Space);
    var slot := ShiftAll(source, k);
    var image: Byte := (Space + k) % 256;
    CountShift(source, k, image);
    ShiftByteIff(Space, k, image);
    var common := MostCommon(slot);
    MostCommonIsArgmax(slot);
    CountShift(source, k, common);
    if common != image {
      ShiftByteIff((common as int - k) % 256, k, common);
      assert false;
    }
  }

  /** The attack is exact on its own assumption: if space strictly dominates
      every slot of the plaintext, `find_key` with the true key length
      returns the key used for byte-mode encryption, and breaking the
      ciphertext returns the plaintext. */
  lemma RecoversKey(plain: seq<Byte>, key: seq<Byte>)
    requires |key| >= 1
    requires SpaceDominant(plain, |key|)
    ensures ByteCipher.Vigenere(plain, key, "encrypt").Success?
    ensures FindKey(ByteCipher.Vigenere(plain, key, "encrypt").value, |key|) == Success(key)
    ensures BreakVigenere(ByteCipher.Vigenere(plain, key, "encrypt").value, |key|) == Success(plain)
  {
    var k := |key|;
    var cipher := ByteCipher.Vigenere(plain, key, "encrypt").value;
    assert Count(Slice(plain, k - 1, k), 0) < Count(Slice(plain, k - 1, k), Space);
    assert k <= |plain|;
    forall s | 0 <= s < k
      ensures |Slice(cipher, s, k)| > 0 && MostCommon(Slice(cipher, s, k)) == (Space + key[s]) % 256
    {
      SliceOfEncrypt(plain, key, s);
      SlotRecovery(Slice(plain, s, k), key[s]);
    }
    FindKeyFromImages(cipher, key);
    DecryptAgreesWithByteMode(cipher, key, "decrypt");
    ByteCipher.RoundTrip(plain, key, "decrypt");
  }

  /** When the most common byte of every slot is the key byte's image of
      space, `find_key` returns exactly that key. */
  lemma FindKeyFromImages(data: seq<Byte>, key: seq<Byte>)
    requires 1 <= |key| <= |data|
    requires forall s :: 0 <= s < |key| ==>
      |Slice(data, s, |key|)| > 0 && MostCommon(Slice(data, s, |key|)) == (Space + key[s]) % 256
    ensures FindKey(data, |key|) == Success(key)
  {
    var found := FindKey(data, |key|).value;
    forall s | 0 <= s < |key|
      ensures found[s] == key[s]
    {
      ModCancel(found[s] as int, Space as int, 256);
      ModCancel(key[s] as int, Space as int, 256);
    }
    assert found == key;
  }
}
