# Vigenère cipher and its cryptanalysis, in Dafny

This project models the computational core of three Python scripts.

- `Projekt.py`, `vigenere`: a repeating-key Vigenère transform. It has two paths.
  - Byte path: each byte is shifted by the key byte at `i % len(key)`, modulo 256.
  - Code-table path: a character of the text that is a symbol of the table is
    replaced by the symbol whose code is the shifted code, modulo the table size.
    Other characters are copied unchanged.
- `DodatnaNaloga.py`: a frequency attack.
  - `find_key` cuts the ciphertext into `key_length` interleaved slices.
  - It takes the most common byte of each slice as the image of the space
    character, which gives one key byte per slice.
  - `decrypt` then undoes the byte path with that key.
- `KeyLengths.py`, `kasiski_method`: Kasiski examination.
  - Every window of three bytes except the last is compared with every later, non-overlapping
    window that is not the last one either.
  - Each match records its distance.
  - Every distance votes for each of its divisors from 2 up to itself.
  - The votes are tallied per length, and the tally is sorted by vote count, highest first.

Modules:

| file | module | models |
|---|---|---|
| `base.dfy` | `Base` | bytes, `Option`, `Result`, and one `Error` per exception the scripts raise |
| `byte_cipher.dfy` | `ByteCipher` | byte path of `vigenere` |
| `table_cipher.dfy` | `TableCipher` | code-table path of `vigenere` |
| `frequency.dfy` | `FrequencyAttack` | `decrypt`, `find_key`, and the `find_key` then `decrypt` composition of `break_vigenere` |
| `kasiski_scan.dfy` | `KasiskiScan` | the window scan of `kasiski_method` |
| `key_lengths.dfy` | `KeyLengths` | divisor voting, the `defaultdict` tally and the stable sort of `kasiski_method` |

Modelling choices:

- Exceptions become values. Each operation returns `Result<T>`, and `Failure` carries the `Error` of the raise site:
  - `ValueError` for an empty key;
  - `ZeroDivisionError` of `i % len(key)`;
  - the two distinct `KeyError`s of the table path;
  - `TypeError` or `ValueError` when an empty (falsy) table sends text down the byte path (one error value for both, see "Left out");
  - `IndexError` of `most_common(1)[0]` on an empty slice.
- A Python dictionary is an association list in insertion order. This matters twice:
  - the reverse code table `{v: k for k, v in code_table.items()}` keeps the symbol inserted last;
  - `sorted(..., reverse=True)` is stable, so equal counts stay in insertion order.
- `Counter(s).most_common(1)` breaks ties the way CPython does. Among the bytes of maximal count, the one that occurs first in the slice wins.
- Python's `%` with a positive modulus agrees with Dafny's Euclidean `%`, so the shifts need no sign correction.

Behaviour of the code worth noting:

- `find_key` with `key_length <= 0` does not fail. `range(key_length)` is empty, so it returns an empty key (`FindKey`). `break_vigenere` then fails only if the data is non-empty, through `i % len(key)` in `decrypt` (`BreakVigenere`).
- The scan never uses the last window. Anchors run over `0 .. n-4` and partners over `i+3 .. n-4` (`KeyLengths.py:8-10`).
  - So `"ABCXYZABCDEFABC"` records only the distance 6, from positions 0 and 6. The occurrence at position 12 is the last window and is never compared (`KasiskiScan.DistanceBounds`: every distance `d` has `d + 3 < n`).
  - `"ABCABC"` records nothing (`KasiskiScan.ShortTextHasNoDistances`).
- Ties follow order of appearance.
  - `most_common` prefers the byte that occurs first (`FrequencyAttack.MostCommonTieBreak`).
  - The ranking keeps equal counts in the order their lengths first received a vote (`KeyLengths.KasiskiRanking`).

## Model

| member | source | states |
|---|---|---|
| ByteCipher.Vigenere | Projekt.py:28-46 | with no code table, the call fails with the empty-key error exactly when the key is empty, and otherwise returns one byte per input byte |
| ByteCipher.ShiftsEachByte | Projekt.py:45-46 | output byte `i` is input byte `i` plus the key byte at `i % len(key)` modulo 256 when the mode is "encrypt", and minus it for any other mode |
| ByteCipher.ShiftInverse | Projekt.py:45-46 | subtracting a key byte modulo 256 undoes adding it, and the other way round |
| ByteCipher.RoundTrip | Projekt.py:45-46 | for a non-empty key and any non-"encrypt" mode, decrypting an encryption returns the data and encrypting a decryption returns the data |
| TableCipher.CodeOfEntry | Projekt.py:35-36 | every symbol of the table is found with its own code |
| TableCipher.CodeOfFound | Projekt.py:35-37 | a string the table lookup finds is the symbol of some entry, and the code returned is that entry's code |
| TableCipher.SymbolOfFound | Projekt.py:33 | the reverse lookup of a code returns the symbol of the last entry carrying that code; no later entry carries it |
| TableCipher.SymbolOfEntry | Projekt.py:33 | the reverse lookup finds every code that some entry carries, so together with `SymbolOfFound` it finds a code exactly when an entry carries it |
| TableCipher.CodeOf | Projekt.py:35-37 | no contract of its own: `CodeOfEntry` and `CodeOfFound` state that it finds exactly the symbols of the table, each with its code |
| TableCipher.SymbolOf | Projekt.py:33 | no contract of its own: `SymbolOfFound` and `SymbolOfEntry` state that it finds exactly the codes some entry carries, returning the last such entry's symbol |
| TableCipher.Step | Projekt.py:35-41 | an unmapped character is copied; only a mapped character can fail; the missing-key-character error happens exactly when the character is mapped and the key character is not; every failure is one of the two lookup errors |
| TableCipher.Steps | Projekt.py:34-41 | one outcome per character of the text, which is only its shape; the key position of character `i` is `i % len(key)`, and what each outcome is comes from `Step` |
| TableCipher.Join | Projekt.py:42 | no contract of its own: `JoinSingles` states what joining single-character pieces gives |
| TableCipher.Collect | Projekt.py:34-42 | the loop succeeds exactly when every position succeeds, keeps the pieces in order, and otherwise reports the error of the first failing position |
| TableCipher.Vigenere | Projekt.py:28-46 | empty key fails with the empty-key error; an empty table accepts only empty text and fails on any character with the byte-path error; with a table, the call succeeds exactly when every position's step succeeds, and a failure is the error of the first failing position |
| TableCipher.SymbolOfMissing | Projekt.py:33 | the reverse lookup misses a code exactly when no entry of the table carries it |
| TableCipher.CodeMissingIff | Projekt.py:36-39 | when the text character and the key character are both symbols of the table, the step fails with the reverse lookup's `KeyError` exactly when no entry carries the shifted code modulo the table size |
| TableCipher.StepSingle | Projekt.py:35-41 | with single-character symbols, a successful step yields exactly one character |
| TableCipher.OutputPerPosition | Projekt.py:34-42 | with single-character symbols, a successful call returns one character per character of the text, and character `i` is what the step at position `i` produced with key character `key[i % len(key)]` |
| TableCipher.JoinSingles | Projekt.py:42 | joining single-character pieces gives a string with one character per piece, in order |
| TableCipher.SymbolRoundTrip | Projekt.py:33-39 | in a table that is a bijection onto codes `0 .. size-1`, every such code names a single-character symbol that maps back to it |
| TableCipher.StepShape | Projekt.py:35-41 | with a key character of the table, one step never fails; it copies an unmapped character, and otherwise yields the symbol whose code is the shifted code modulo the table size |
| TableCipher.StepInverse | Projekt.py:35-41 | for a key character of the table, the opposite step undoes one step on any character |
| TableCipher.RoundTrip | Projekt.py:34-42 | for a bijective single-character table, a non-empty key drawn from it and any non-"encrypt" mode, decrypting an encryption returns the text, and encrypting a decryption does too |
| TableCipher.RoundTripOneWay | Projekt.py:34-42 | one direction of the round trip, for any pair of opposite modes |
| FrequencyAttack.Decrypt | DodatnaNaloga.py:8-12 | fails with the division-by-zero error exactly when the key is empty and the data is not; otherwise one byte per input byte |
| FrequencyAttack.DecryptBytes | DodatnaNaloga.py:10-11 | output byte `i` is input byte `i` minus the key byte at `i % len(key)`, modulo 256 |
| FrequencyAttack.DecryptAgreesWithByteMode | DodatnaNaloga.py:8-12 | for a non-empty key, `decrypt` returns exactly what the byte path of `vigenere` returns in a decrypting mode |
| FrequencyAttack.Slice | DodatnaNaloga.py:15 | no contract of its own: `SliceLengthFormula`, `SliceElements`, `SliceCovers` and `SlicesPartition` state what `data[start::step]` holds |
| FrequencyAttack.SliceLengthFormula | DodatnaNaloga.py:15 | `data[start::step]` has `(len(data) - start - 1) // step + 1` elements when `start < len(data)`, and none otherwise |
| FrequencyAttack.SliceElements | DodatnaNaloga.py:15 | element `m` of `data[start::step]` is `data[start + m*step]` |
| FrequencyAttack.SliceCovers | DodatnaNaloga.py:15 | every position `start + m*step` inside the data is in the slice |
| FrequencyAttack.SlicesPartition | DodatnaNaloga.py:15 | the `k` slices partition the data: slice `s` holds exactly the positions congruent to `s` modulo `k`, in order, and position `j` is element `j / k` of slice `j % k` |
| FrequencyAttack.SliceResidues | DodatnaNaloga.py:15 | slice `s` of `k` holds, in order, the positions `s + m*k`, all congruent to `s` modulo `k` |
| FrequencyAttack.SlicePosition | DodatnaNaloga.py:15 | position `j` of the data is element `j // k` of slice `j % k` |
| FrequencyAttack.FirstMax | DodatnaNaloga.py:18 | the chosen index has a maximal count among the first `n` positions, and every earlier position has a strictly smaller count |
| FrequencyAttack.MostCommon | DodatnaNaloga.py:18 | the chosen byte occurs in the slice; `MostCommonIsArgmax` and `MostCommonTieBreak` state which one it is |
| FrequencyAttack.MostCommonIsArgmax | DodatnaNaloga.py:18 | no byte occurs in the slice more often than the most common byte |
| FrequencyAttack.MostCommonTieBreak | DodatnaNaloga.py:18 | among bytes of maximal count, the most common byte is the one that occurs first |
| FrequencyAttack.KeyByte | DodatnaNaloga.py:18-20 | the slice is non-empty, and the key byte plus the space code, modulo 256, is the slice's most common byte |
| FrequencyAttack.FindKey | DodatnaNaloga.py:13-21 | a non-positive length gives an empty key; a length beyond the data fails on the empty slice; otherwise the key has one byte per slice, and each byte maps the space character onto the slice's most common byte |
| FrequencyAttack.BreakVigenere | DodatnaNaloga.py:22-25 | with a length in `1 .. len(data)` the break succeeds with one byte per input byte; a longer length fails as `find_key` does; a non-positive length succeeds only on empty data |
| FrequencyAttack.ShiftAll | DodatnaNaloga.py:11 | one shifted byte per byte, which is only its shape; `CountShift` and `SliceOfShifted` state what the shift does to counts and slices |
| FrequencyAttack.CountShift | DodatnaNaloga.py:18-20 | shifting every byte by `d` modulo 256 moves counts along: the count of `b` afterwards is the count of `b - d` before |
| FrequencyAttack.SliceOfDecrypt | DodatnaNaloga.py:8-15 | slice `s` of a decryption is slice `s` of the ciphertext shifted back by the one key byte `key[s]` |
| FrequencyAttack.SliceOfEncrypt | Projekt.py:45-46 | slice `s` of a byte-path encryption is slice `s` of the plaintext shifted by the one key byte `key[s]` |
| FrequencyAttack.SlotAfterDecrypt | DodatnaNaloga.py:18-20 | a slice whose most common byte is the key byte's image of space holds, once shifted back, no byte more often than space |
| FrequencyAttack.DecryptedSlot | DodatnaNaloga.py:24-25 | decrypting with a key byte recovered from a slice leaves no byte of that slice more common than space |
| FrequencyAttack.SpaceDominatesAfterBreak | DodatnaNaloga.py:22-25 | after `find_key` and `decrypt`, space is a most common byte of every slice of the recovered text |
| FrequencyAttack.SlotRecovery | DodatnaNaloga.py:18-20 | if space strictly dominates a slice, then after a shift by `k` the most common byte is the image of space |
| FrequencyAttack.FindKeyFromImages | DodatnaNaloga.py:13-21 | when each slice's most common byte is the image of space under `key[s]`, `find_key` returns exactly that key |
| FrequencyAttack.RecoversKey | DodatnaNaloga.py:22-25 | if space strictly dominates every slice of the plaintext, then on its byte-path encryption `find_key` with the true length returns the key, and the break returns the plaintext |
| KasiskiScan.PartnersFrom | KeyLengths.py:10-12 | the inner loop records exactly the matching pairs with the given anchor and a partner from `j` on, in increasing partner order |
| KasiskiScan.AnchorsFrom | KeyLengths.py:8-12 | the outer loop records exactly the matching pairs with an anchor from `i` on, in visiting order |
| KasiskiScan.Pairs | KeyLengths.py:7-12 | a pair is recorded exactly when it lies in the loop ranges and its windows are equal; pairs come in lexicographic order, so none is recorded twice |
| KasiskiScan.Distances | KeyLengths.py:7-12 | one distance per recorded pair, in visiting order: distance `k` is the partner minus the anchor of the `k`-th matching pair, so the two windows it separates are equal and lie in the ranges the loops visit |
| KasiskiScan.DistanceMultiplicity | KeyLengths.py:7-12 | nothing is deduplicated: a distance `d` occurs in the list exactly as many times as there are matching pairs `(i, j)` with `j - i == d` |
| KasiskiScan.DistanceBounds | KeyLengths.py:8-12 | every distance is at least 3 and stays 4 short of the text length; every matching pair's distance is recorded |
| KasiskiScan.ShortTextHasNoDistances | KeyLengths.py:8-10 | a text of fewer than seven bytes records no distance |
| KeyLengths.DivisorsFrom | KeyLengths.py:15-17 | the inner loop lists lengths in `from .. d`, strictly increasing |
| KeyLengths.DivisorsFromCount | KeyLengths.py:15-17 | a length is listed once if it is a divisor of `d` in `from .. d`, and never otherwise |
| KeyLengths.Divisors | KeyLengths.py:15-17 | no contract of its own: it is `DivisorsFrom` from 2, so `DivisorsFrom` and `DivisorsFromCount` state its order and contents |
| KeyLengths.Votes | KeyLengths.py:13-17 | no contract of its own: `VotesCount` states how often each length occurs in it |
| KeyLengths.VotesCount | KeyLengths.py:13-17 | `gcds` holds each length as many times as there are distances it divides, counting only lengths in `2 .. d` |
| KeyLengths.VotersPositive | KeyLengths.py:14-17 | a length gets a vote exactly when some distance is a multiple of it in range |
| KeyLengths.Lookup | KeyLengths.py:18-20 | `freq[len]` with the default 0; no contract of its own: `LookupPositive`, `LookupMember` and the `Histogram` contract state what it returns |
| KeyLengths.LookupPositive | KeyLengths.py:18-20 | only a length that has an item in `freq` can have a positive count |
| KeyLengths.Bump | KeyLengths.py:20 | `freq[len] += 1` raises the count of `len` by one and leaves every other count alone; an existing item keeps its place and a new one goes last |
| KeyLengths.BumpTotal | KeyLengths.py:20 | one increment adds one to the total of all counts |
| KeyLengths.Histogram | KeyLengths.py:18-20 | the count stored for each length is the number of times it occurs in `gcds`; a length has an item exactly when it was voted for; counts are positive |
| KeyLengths.BumpKeepsOrder | KeyLengths.py:18-20 | one increment keeps lengths distinct and items in first-vote order |
| KeyLengths.HistogramShape | KeyLengths.py:18-20 | items have distinct lengths, appear in the order their lengths first got a vote, and their counts add up to the number of votes |
| KeyLengths.Insert | KeyLengths.py:21 | inserting into a list sorted by descending count keeps it sorted |
| KeyLengths.InsertPermutes | KeyLengths.py:21 | insertion adds exactly the inserted item |
| KeyLengths.InsertWithCount | KeyLengths.py:21 | the inserted item goes ahead of the items with its own count, and every other count group is unchanged |
| KeyLengths.SortByCount | KeyLengths.py:21 | the result is in descending order of count |
| KeyLengths.SortPermutes | KeyLengths.py:21 | the result is a permutation of the items |
| KeyLengths.SortIsStable | KeyLengths.py:21 | items with the same count keep their relative order |
| KeyLengths.StableDescendingIsUnique | KeyLengths.py:21 | two lists in descending count order with the same order within every count group are equal, so descending order plus stability determine the result |
| KeyLengths.SortTotal | KeyLengths.py:21 | sorting keeps the total of the counts |
| KeyLengths.SortDistinct | KeyLengths.py:21 | sorting keeps lengths distinct |
| KeyLengths.SortLengths | KeyLengths.py:21 | sorting keeps the set of lengths |
| KeyLengths.TiesGiveOrderedGroups | KeyLengths.py:21 | if equal-count items are in first-vote order, so is every count group |
| KeyLengths.OrderedGroupsGiveTies | KeyLengths.py:21 | if every count group is in first-vote order, so are the equal-count items of the whole list |
| KeyLengths.Rank | KeyLengths.py:13-22 | the ranking of a list of distances is in descending count order |
| KeyLengths.RankCounts | KeyLengths.py:13-22 | each ranked length appears once, its count is the number of distances voting for it and is at least 1, and the counts add up to the number of votes |
| KeyLengths.RankLengths | KeyLengths.py:13-22 | a length is ranked exactly when some distance votes for it |
| KeyLengths.RankTies | KeyLengths.py:13-22 | items with equal counts appear in the order their lengths first got a vote |
| KeyLengths.KasiskiMethod | KeyLengths.py:6-22 | the returned items are in descending count order |
| KeyLengths.KasiskiRanking | KeyLengths.py:6-22 | the items cover exactly the lengths some recorded distance votes for, each once, with its vote count; lengths lie between 2 and 4 short of the text length; equal counts keep first-vote order; counts add up to the number of votes |
| KeyLengths.ShortTextHasNoCandidates | KeyLengths.py:6-22 | a text of fewer than seven bytes gives an empty ranking |
| KeyLengths.VotersOfSixNineTwelve | KeyLengths.py:14-17 | the votes of the distances 6, 9 and 12 for any length, one per distance it divides |
| KeyLengths.ThreeIsTheCommonDivisor | KeyLengths.py:15-16 | the only length that 6, 9 and 12 all vote for is 3 |
| KeyLengths.SixNineTwelveRanksThreeFirst | KeyLengths.py:13-22 | for the distances 6, 9 and 12, the ranking starts with length 3 at 3 votes |

## Left out

- File and console I/O: `read_binary_file`, `write_binary_file`, `read_file`, `write_to_file`, `input`, `print` and `getpass`. The model works on in-memory values that would have been read or written.
- `load_code_table` (Projekt.py:11-22) parses a text file, a parsing concern. The model takes the table it would return as a parameter: a sequence of entries with distinct symbols.
- `main` (Projekt.py:47-79) and the script-level code at the end of `DodatnaNaloga.py` and `KeyLengths.py` only choose files, keys and key lengths interactively or by constants.
- The UTF-8 `decode` at the end of `decrypt` (DodatnaNaloga.py:12): `Decrypt` returns the decrypted bytes, and a `UnicodeDecodeError` on invalid UTF-8 is not modelled.
- `import re` in `KeyLengths.py` is unused.
- Mixed argument types are not modelled, because they need Python's dynamic types:
  - bytes with a non-empty code table;
  - text with a byte key;
  - a `bytes` key in table mode.
  - The one mixed case with a definite outcome is modelled: text with an empty table, which raises unless the text is empty.
- TableCipher.Vigenere: text with an empty table fails with the single error `TextInByteMode`. Python raises `TypeError` there, except in "encrypt" mode when the concatenation of the first text character and key character is a malformed `%`-format string (`"a%"`, `"%z"`), where `str % 256` raises `ValueError` instead. Telling them apart would mean modelling Python's string-formatting parser.
- The byte path returns `bytes` and the table path returns `str`. Both are sequences here, so an empty result is `[]` in either case.
