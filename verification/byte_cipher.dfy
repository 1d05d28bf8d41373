/** Byte mode of `vigenere` (Projekt.py): the code path taken when no code
    table is given. Each byte is shifted by the key byte at the same position
    modulo the key length, with arithmetic modulo 256. */
module ByteCipher {
  import opened Base

  /** The shift applied to one byte. Python's `%` and Dafny's `%` agree for
      the positive modulus 256, so no sign correction is needed. */
  function ShiftByte(b: Byte, k: Byte, encrypt: bool): Byte {
    if encrypt then (b as int + k) % 256 else (b as int - k) % 256
  }

  /** `vigenere(data, key, mode)` with no code table. */
  function Vigenere(data: seq<Byte>, key: seq<Byte>, mode: string): (r: Result<seq<Byte>>)
    ensures r.Failure? <==> |key| == 0
    ensures r.Failure? ==> r.error == EmptyKey
    ensures r.Success? ==> |r.value| == |data|
  {
    if |key| == 0 then Failure(EmptyKey)
    else Success(seq(|data|, i requires 0 <= i < |data| => ShiftByte(data[i], key[i % |key|], IsEncrypt(mode))))
  }

  /** Byte `i` of the output is byte `i` of the input plus the key byte at
      `i % |key|` when the mode is "encrypt" and minus it otherwise, modulo 256. */
  lemma ShiftsEachByte(data: seq<Byte>, key: seq<Byte>, mode: string)
    requires |key| > 0
    ensures Vigenere(data, key, mode).Success?
    ensures IsEncrypt(mode) ==> forall i :: 0 <= i < |data| ==>
      Vigenere(data, key, mode).value[i] == (data[i] as int + key[i % |key|]) % 256
    ensures !IsEncrypt(mode) ==> forall i :: 0 <= i < |data| ==>
      Vigenere(data, key, mode).value[i] == (data[i] as int - key[i % |key|]) % 256
  {
  }

  /** Subtracting a key byte undoes adding it, and the other way round. */
  lemma ShiftInverse(b: Byte, k: Byte)
    ensures ShiftByte(ShiftByte(b, k, true), k, false) == b
    ensures ShiftByte(ShiftByte(b, k, false), k, true) == b
  {
    ModCancel(b as int, k as int, 256);
  }

  /** Decrypting an encryption under the same non-empty key gives back the
      data, and so does encrypting a decryption; any mode string other than
      "encrypt" decrypts. */
  lemma RoundTrip(data: seq<Byte>, key: seq<Byte>, other: string)
    requires |key| > 0
    requires !IsEncrypt(other)
    ensures Vigenere(data, key, "encrypt").Success?
    ensures Vigenere(Vigenere(data, key, "encrypt").value, key, other) == Success(data)
    ensures Vigenere(Vigenere(data, key, other).value, key, "encrypt") == Success(data)
  {
    var enc := Vigenere(data, key, "encrypt").value;
    var dec := Vigenere(data, key, other).value;
    forall i | 0 <= i < |data|
      ensures Vigenere(enc, key, other).value[i] == data[i]
      ensures Vigenere(dec, key, "encrypt").value[i] == data[i]
    {
      ShiftInverse(data[i], key[i % |key|]);
    }
    assert Vigenere(enc, key, other).value == data;
    assert Vigenere(dec, key, "encrypt").value == data;
  }
}
