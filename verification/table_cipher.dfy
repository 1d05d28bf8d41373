/** Code-table mode of `vigenere` (Projekt.py): every character of the text
    that is a symbol of the table is replaced by the symbol whose code is the
    character's code shifted by the key character's code, modulo the table
    size; characters outside the table are copied unchanged. */
module TableCipher {
  import opened Base

  /** One item of the code table: a symbol (a string) and its integer code. */
  datatype Entry = Entry(symbol: string, code: int)

  predicate DistinctSymbols(t: seq<Entry>) {
    forall a, b :: 0 <= a < b < |t| ==> t[a].symbol != t[b].symbol
  }

  /** The dictionary `code_table` seen through `items()`: entries in insertion
      order, each symbol at most once, as in any Python dict. */
  type CodeTable = t: seq<Entry> | DistinctSymbols(t) witness []

  /** `code_table[sym]`, or None when `sym not in code_table`. */
  function CodeOf(t: seq<Entry>, sym: string): Option<int> {
    if |t| == 0 then None
    else if t[0].symbol == sym then Some(t[0].code)
    else CodeOf(t[1..], sym)
  }

  /** `reverse_table[code]` for `reverse_table = {v: k for k, v in code_table.items()}`:
      when several symbols share a code, the one inserted last wins. */
  function SymbolOf(t: seq<Entry>, code: int): Option<string> {
    if |t| == 0 then None
    else if t[|t| - 1].code == code then Some(t[|t| - 1].symbol)
    else SymbolOf(t[..|t| - 1], code)
  }

  /** The piece appended to `result` for one character `c` of the text, with
      `k` the key character at the same position. */
  function Step(t: CodeTable, c: char, k: char, encrypt: bool): (r: Result<string>)
    requires |t| > 0
    ensures CodeOf(t, [c]).None? ==> r == Success([c])
    ensures r.Failure? ==> CodeOf(t, [c]).Some?
    ensures r == Failure(SymbolMissing) <==> CodeOf(t, [c]).Some? && CodeOf(t, [k]).None?
    ensures r.Failure? ==> r.error == SymbolMissing || r.error == CodeMissing
  {
    match CodeOf(t, [c])
    case None => Success([c])
    case Some(charCode) =>
      match CodeOf(t, [k])
      case None => Failure(SymbolMissing)
      case Some(keyCode) =>
        var shift := if encrypt then charCode + keyCode else charCode - keyCode;
        match SymbolOf(t, shift % |t|)
        case None => Failure(CodeMissing)
        case Some(sym) => Success(sym)
  }

  /** The outcome of the step at every position of the text: the key index
      counts every character, mapped or not. */
  function Steps(t: CodeTable, data: string, key: string, encrypt: bool): (r: seq<Result<string>>)
    requires |t| > 0 && |key| > 0
    ensures |r| == |data|
  {
    seq(|data|, i requires 0 <= i < |data| => Step(t, data[i], key[i % |key|], encrypt))
  }

  /** The list `result` built by the loop over the step outcomes: an
      exception at one position aborts the whole loop, so the loop is
      all-or-nothing and reports the first failure. */
  function Collect(outcomes: seq<Result<string>>): (r: Result<seq<string>>)
    ensures r.Success? <==> forall m :: 0 <= m < |outcomes| ==> outcomes[m].Success?
    ensures r.Success? ==> |r.value| == |outcomes|
    ensures r.Success? ==> forall m :: 0 <= m < |outcomes| ==> r.value[m] == outcomes[m].value
    ensures r.Failure? ==>
      exists m :: 0 <= m < |outcomes| && outcomes[m] == Failure(r.error) &&
                  forall m' :: 0 <= m' < m ==> outcomes[m'].Success?
  {
    if |outcomes| == 0 then Success([])
    else
      match outcomes[0]
      case Failure(e) => Failure(e)
      case Success(piece) =>
        match Collect(outcomes[1..])
        case Failure(e) => Failure(e)
        case Success(rest) => Success([piece] + rest)
  }

  /** `''.join(result)`. */
  function Join(pieces: seq<string>): string {
    if |pieces| == 0 then [] else pieces[0] + Join(pieces[1..])
  }

  /** `vigenere(data, key, mode, code_table)` for text. An empty table is
      falsy, so the call takes the byte path, which only an empty text
      survives: the first character reaches `(byte + key[...]) % 256` or
      `(byte - key[...]) % 256` with two strings, which raises. */
  function Vigenere(data: string, key: string, mode: string, t: CodeTable): (r: Result<string>)
    ensures |key| == 0 <==> r == Failure(EmptyKey)
    ensures |key| > 0 && |t| == 0 ==> (r.Success? <==> |data| == 0)
    ensures |key| > 0 && |t| == 0 && r.Failure? ==> r.error == TextInByteMode
    ensures |key| > 0 && |t| > 0 ==>
      (r.Success? <==> forall i :: 0 <= i < |data| ==> Steps(t, data, key, IsEncrypt(mode))[i].Success?)
    ensures |key| > 0 && |t| > 0 && r.Failure? ==>
      exists i :: 0 <= i < |data| && Steps(t, data, key, IsEncrypt(mode))[i] == Failure(r.error) &&
        forall i' :: 0 <= i' < i ==> Steps(t, data, key, IsEncrypt(mode))[i'].Success?
  {
    if |key| == 0 then Failure(EmptyKey)
    else if |t| == 0 then (if |data| == 0 then Success([]) else Failure(TextInByteMode))
    else
      match Collect(Steps(t, data, key, IsEncrypt(mode)))
      case Failure(e) => Failure(e)
      case Success(pieces) => Success(Join(pieces))
  }

  /** Every symbol of the table is a single character. */
  predicate SingleCharSymbols(t: CodeTable) {
    forall a :: 0 <= a < |t| ==> |t[a].symbol| == 1
  }

  /** The table is a bijection between single-character symbols and the
      codes 0 .. |t|-1. The last conjunct, that every such code is found,
      already follows from the two before it: |t| distinct codes inside
      0 .. |t|-1 must cover the range. It is kept so that the reverse lookup
      can be used without a counting argument; the predicate says no more
      than "bijection onto 0 .. |t|-1". */
  predicate Alphabet(t: CodeTable) {
    && |t| > 0
    && SingleCharSymbols(t)
    && (forall a :: 0 <= a < |t| ==> 0 <= t[a].code < |t|)
    && (forall a, b :: 0 <= a < b < |t| ==> t[a].code != t[b].code)
    && (forall v :: 0 <= v < |t| ==> SymbolOf(t, v).Some?)
  }

  /** A symbol of the table is found, with its own code. */
  lemma {:induction false} CodeOfEntry(t: CodeTable, a: nat)
    requires a < |t|
    ensures CodeOf(t, t[a].symbol) == Some(t[a].code)
  {
    if a > 0 {
      assert t[1..][a - 1] == t[a];
      CodeOfEntry(t[1..], a - 1);
    }
  }

  /** A found symbol is the symbol of an entry, and the code is that entry's
      code; so a string that is no symbol of the table is not found. */
  lemma {:induction false} CodeOfFound(t: seq<Entry>, sym: string) returns (a: nat)
    requires CodeOf(t, sym).Some?
    ensures a < |t| && t[a].symbol == sym && t[a].code == CodeOf(t, sym).value
  {
    if t[0].symbol == sym {
      a := 0;
    } else {
      var a' := CodeOfFound(t[1..], sym);
      a := a' + 1;
    }
  }

  /** The reverse lookup finds a code exactly when some entry carries it,
      and then returns the symbol of the LAST such entry. */
  lemma {:induction false} SymbolOfFound(t: seq<Entry>, code: int) returns (a: nat)
    requires SymbolOf(t, code).Some?
    ensures a < |t| && t[a].code == code && t[a].symbol == SymbolOf(t, code).value
    ensures forall b :: a < b < |t| ==> t[b].code != code
  {
    if t[|t| - 1].code == code {
      a := |t| - 1;
    } else {
      a := SymbolOfFound(t[..|t| - 1], code);
    }
  }

  lemma {:induction false} SymbolOfEntry(t: seq<Entry>, a: nat)
    requires a < |t|
    ensures SymbolOf(t, t[a].code).Some?
  {
    if a < |t| - 1 && t[|t| - 1].code != t[a].code {
      SymbolOfEntry(t[..|t| - 1], a);
    }
  }

  /** When the text character and the key character are both symbols of
      the table, the step fails exactly when no entry carries the shifted
      code, and then with the reverse lookup's `KeyError`. */
  lemma CodeMissingIff(t: CodeTable, c: char, k: char, encrypt: bool, charCode: int, keyCode: int)
    requires |t| > 0
    requires CodeOf(t, [c]) == Some(charCode) && CodeOf(t, [k]) == Some(keyCode)
    ensures Step(t, c, k, encrypt) == Failure(CodeMissing) <==>
      forall a :: 0 <= a < |t| ==> t[a].code != (if encrypt then charCode + keyCode else charCode - keyCode) % |t|
  {
    StepReverseLookup(t, c, k, encrypt, charCode, keyCode);
    SymbolOfMissing(t, (if encrypt then charCode + keyCode else charCode - keyCode) % |t|);
  }

  /** With both characters mapped, the step fails with `CodeMissing` exactly
      when the reverse lookup of the shifted code misses. */
  lemma StepReverseLookup(t: CodeTable, c: char, k: char, encrypt: bool, charCode: int, keyCode: int)
    requires |t| > 0
    requires CodeOf(t, [c]) == Some(charCode) && CodeOf(t, [k]) == Some(keyCode)
    ensures Step(t, c, k, encrypt) == Failure(CodeMissing) <==>
      SymbolOf(t, (if encrypt then charCode + keyCode else charCode - keyCode) % |t|).None?
  {
  }

  /** The reverse lookup misses a code exactly when no entry carries it. */
  lemma SymbolOfMissing(t: seq<Entry>, code: int)
    ensures SymbolOf(t, code).None? <==> forall a :: 0 <= a < |t| ==> t[a].code != code
  {
    if SymbolOf(t, code).Some? {
      var a := SymbolOfFound(t, code);
    } else {
      forall a | 0 <= a < |t|
        ensures t[a].code != code
      {
        SymbolOfEntry(t, a);
      }
    }
  }

  lemma JoinSingles(pieces: seq<string>)
    requires forall i :: 0 <= i < |pieces| ==> |pieces[i]| == 1
    ensures |Join(pieces)| == |pieces|
    ensures forall i :: 0 <= i < |pieces| ==> Join(pieces)[i] == pieces[i][0]
  {
    if |pieces| > 0 {
      JoinSingles(pieces[1..]);
    }
  }

  /** With single-character symbols, a successful step yields one character. */
  lemma StepSingle(t: CodeTable, c: char, k: char, encrypt: bool)
    requires |t| > 0 && SingleCharSymbols(t)
    requires Step(t, c, k, encrypt).Success?
    ensures |Step(t, c, k, encrypt).value| == 1
  {
    if CodeOf(t, [c]).Some? {
      var cc := CodeOf(t, [c]).value;
      var kc := CodeOf(t, [k]).value;
      var shift := if encrypt then cc + kc else cc - kc;
      var a := SymbolOfFound(t, shift % |t|);
    }
  }

  /** A successful table-mode call with single-character symbols returns one
      character per character of the text: character `i` is the piece the
      step at position `i` produced, with key character `key[i % |key|]`. */
  lemma OutputPerPosition(data: string, key: string, mode: string, t: CodeTable)
    requires |key| > 0 && |t| > 0 && SingleCharSymbols(t)
    ensures Vigenere(data, key, mode, t).Success? ==>
      |Vigenere(data, key, mode, t).value| == |data| &&
      forall i :: 0 <= i < |data| ==>
        [Vigenere(data, key, mode, t).value[i]] == Steps(t, data, key, IsEncrypt(mode))[i].value
  {
    var steps := Steps(t, data, key, IsEncrypt(mode));
    if Vigenere(data, key, mode, t).Success? {
      var pieces := Collect(steps).value;
      assert forall i :: 0 <= i < |data| ==> steps[i].Success?;
      forall i | 0 <= i < |data|
        ensures |pieces[i]| == 1
      {
        assert steps[i] == Step(t, data[i], key[i % |key|], IsEncrypt(mode));
        StepSingle(t, data[i], key[i % |key|], IsEncrypt(mode));
      }
      JoinSingles(pieces);
      assert Vigenere(data, key, mode, t).value == Join(pieces);
      forall i | 0 <= i < |data|
        ensures [Join(pieces)[i]] == steps[i].value
      {
        assert [pieces[i][0]] == pieces[i];
      }
    }
  }

  /** In a bijective table every code 0 .. |t|-1 names one single-character
      symbol, and that symbol maps back to the code. */
  lemma SymbolRoundTrip(t: CodeTable, v: int)
    requires Alphabet(t)
    requires 0 <= v < |t|
    ensures SymbolOf(t, v).Some?
    ensures |SymbolOf(t, v).value| == 1
    ensures CodeOf(t, SymbolOf(t, v).value) == Some(v)
  {
    var b := SymbolOfFound(t, v);
    CodeOfEntry(t, b);
  }

  /** With a key character of a bijective table, one step never fails: it
      keeps an unmapped character and otherwise yields the single-character
      symbol of the shifted code. */
  lemma StepShape(t: CodeTable, c: char, k: char, encrypt: bool)
    requires Alphabet(t)
    requires CodeOf(t, [k]).Some?
    ensures Step(t, c, k, encrypt).Success?
    ensures CodeOf(t, [c]).None? ==> Step(t, c, k, encrypt).value == [c]
    ensures CodeOf(t, [c]).Some? ==>
      var shift := if encrypt then CodeOf(t, [c]).value + CodeOf(t, [k]).value
                   else CodeOf(t, [c]).value - CodeOf(t, [k]).value;
      CodeOf(t, Step(t, c, k, encrypt).value) == Some(shift % |t|)
    ensures |Step(t, c, k, encrypt).value| == 1
  {
    var kc := CodeOf(t, [k]).value;
    if CodeOf(t, [c]).Some? {
      var cc := CodeOf(t, [c]).value;
      var shift := if encrypt then cc + kc else cc - kc;
      SymbolRoundTrip(t, shift % |t|);
      assert Step(t, c, k, encrypt) == Success(SymbolOf(t, shift % |t|).value);
    } else {
      assert Step(t, c, k, encrypt) == Success([c]);
    }
  }

  /** For a key character of the table, decrypting undoes encrypting one
      character and encrypting undoes decrypting it. */
  lemma StepInverse(t: CodeTable, c: char, k: char, encrypt: bool)
    requires Alphabet(t)
    requires CodeOf(t, [k]).Some?
    ensures Step(t, c, k, encrypt).Success? && |Step(t, c, k, encrypt).value| == 1
    ensures Step(t, Step(t, c, k, encrypt).value[0], k, !encrypt) == Success([c])
  {
    StepShape(t, c, k, encrypt);
    var out := Step(t, c, k, encrypt).value;
    assert [out[0]] == out;
    StepShape(t, out[0], k, !encrypt);
    var back := Step(t, out[0], k, !encrypt).value;
    if CodeOf(t, [c]).Some? {
      var n := |t|;
      var cc := CodeOf(t, [c]).value;
      var kc := CodeOf(t, [k]).value;
      var a := CodeOfFound(t, [c]);
      var up := if encrypt then cc + kc else cc - kc;
      assert CodeOf(t, out) == Some(up % n);
      ModCancel(cc, kc, n);
      var down := if !encrypt then up % n + kc else up % n - kc;
      assert down % n == cc;
      assert CodeOf(t, back) == Some(cc);
      CodeOfInjective(t, back, [c]);
    }
  }

  /** With pairwise distinct codes, two strings found with the same code are
      the same symbol. */
  lemma CodeOfInjective(t: CodeTable, s1: string, s2: string)
    requires forall x, y :: 0 <= x < y < |t| ==> t[x].code != t[y].code
    requires CodeOf(t, s1).Some? && CodeOf(t, s1) == CodeOf(t, s2)
    ensures s1 == s2
  {
    var a1 := CodeOfFound(t, s1);
    var a2 := CodeOfFound(t, s2);
  }

  /** Table-mode round trip: when the table is a bijection onto 0 .. |t|-1
      with single-character symbols and every key character is in the table,
      decrypting an encryption returns the text, and so does encrypting a
      decryption. */
  lemma RoundTrip(data: string, key: string, other: string, t: CodeTable)
    requires Alphabet(t)
    requires |key| > 0
    requires forall j :: 0 <= j < |key| ==> CodeOf(t, [key[j]]).Some?
    requires !IsEncrypt(other)
    ensures Vigenere(data, key, "encrypt", t).Success?
    ensures Vigenere(Vigenere(data, key, "encrypt", t).value, key, other, t) == Success(data)
    ensures Vigenere(data, key, other, t).Success?
    ensures Vigenere(Vigenere(data, key, other, t).value, key, "encrypt", t) == Success(data)
  {
    RoundTripOneWay(data, key, "encrypt", other, t);
    RoundTripOneWay(data, key, other, "encrypt", t);
  }

  lemma RoundTripOneWay(data: string, key: string, there: string, back: string, t: CodeTable)
    requires Alphabet(t)
    requires |key| > 0
    requires forall j :: 0 <= j < |key| ==> CodeOf(t, [key[j]]).Some?
    requires IsEncrypt(there) != IsEncrypt(back)
    ensures Vigenere(data, key, there, t).Success?
    ensures Vigenere(Vigenere(data, key, there, t).value, key, back, t) == Success(data)
  {
    var outward := Steps(t, data, key, IsEncrypt(there));
    forall i | 0 <= i < |data|
      ensures outward[i].Success? && |outward[i].value| == 1
      ensures Step(t, outward[i].value[0], key[i % |key|], IsEncrypt(back)) == Success([data[i]])
    {
      StepInverse(t, data[i], key[i % |key|], IsEncrypt(there));
    }
    var pieces := Collect(outward).value;
    var mid := Join(pieces);
    JoinSingles(pieces);
    assert Vigenere(data, key, there, t) == Success(mid);
    var inward := Steps(t, mid, key, IsEncrypt(back));
    assert forall i :: 0 <= i < |mid| ==> inward[i] == Success([data[i]]);
    var returned := Collect(inward).value;
    JoinSingles(returned);
    assert Join(returned) == data;
  }
}
