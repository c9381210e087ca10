# pyAES: AES-256 and its OFB text cipher, in Dafny

This project models the credential cipher of gnome-connection-manager,
`src/gnome_connection_manager/utils/pyAES.py`. The file has three layers, and so does the model:

- **The block cipher.** This is AES-256 on a 16-byte state. It has the S-box and inverse S-box tables, and
  multiplication in GF(2^8) (`galoisMult`). It has the four round
  transformations (`subBytes`, `shiftRows`, `mixColumns`, `addRoundKey`) and their
  inverses, and the key schedule (`keyScheduleCore`, `expandKey`), which stretches a
  32-byte key into 240 bytes. On top of those it has 14 rounds (`aesMain`, `aesMainInv`) and the
  one-block `aesEncrypt` and `aesDecrypt`.
- **Block reading.** `getBlock` reads 16 bytes from an in-memory file, fills
  a short last chunk with copies of the number of missing bytes, and gives
  nothing at the end of the file.
- **Output Feedback mode.** `encrypt` pads the text with `numpads = 16 -
  len % 16` copies of `numpads` and writes a 16-byte IV. It then XORs every block
  with the keystream: the first block key is `aesEncrypt(IV)`, and each later one is `aesEncrypt` of the
  key before. `decrypt` rebuilds the same keystream from the envelope's first
  16 bytes. It XORs every later block with it, and cuts the block whose read
  reaches the end of the data by as many bytes as its last byte says, through
  a Python slice.

The source updates the state list in place. For that reason each transformation appears twice:
- as a function on `seq<Byte>` (modules `State`, `Columns`, `Cipher`, `KeySchedule`), which carries
  the lemmas;
- as a method whose loops are proved to compute that function. The `Engine` methods
  overwrite an `array<Byte>` state. `Galois.GaloisMult` runs its loop on 16-bit
  locals. `KeySchedule.ExpandKey` appends to a `seq<Byte>`.

In-memory files are the class `Blocks.Stream`. The OFB specification
(`Ofb.EncryptSpec`, `Ofb.DecryptSpec`) takes the block cipher as a parameter,
a block map `enc` from 16 bytes to 16 bytes. The round trip is proved for every block
map. `Ofb.Encrypt` and `Ofb.Decrypt` run the source's loops with
`Engine.AesEncrypt` and are proved equal to the specification at
`Ofb.AesBlocks(key)`. Decrypt therefore needs only the forward
cipher.

`Tables` holds the 256-entry tables as 16 rows of 16, selected by nibble. `Rcon`
holds the 255 entries of `rcon`.

The model follows the code where its behaviour is surprising:
- The state is laid out row by row: row i is `state[4i..4i+3]`, the slice
  that `shiftRows` rotates. `mixColumns` gathers column i from `state[i]`,
  `state[i+4]`, `state[i+8]` and `state[i+12]`.
- `galoisMult` never masks `a` or `p` to a byte; only the final `p % 256` does.
  The model keeps both unmasked in 16 bits, which holds them exactly for eight
  passes, and proves the result is the field product.
- `decrypt` does not check the final pad byte: a value of 0 or above 16 drops
  the whole last block (`Blocks.StripPadKeeps`).
- `decrypt` rejects no envelope. One of 0 to 16 bytes gives the empty text,
  and a tail after the IV that is not whole blocks is filled by `getBlock`
  and decrypted like any other last block (`Ofb.DecryptSpec`).

## Model

| member | source | states |
|---|---|---|
| Tables.Sbox | src/gnome_connection_manager/utils/pyAES.py:19-276 | the `sbox` table, entry by entry; `Tables.SboxInvSbox` proves it a permutation |
| Tables.SboxInv | src/gnome_connection_manager/utils/pyAES.py:278-535 | the `sboxInv` table, entry by entry; `Tables.SboxSboxInv` proves it the inverse of `sbox` |
| Tables.Rcon | src/gnome_connection_manager/utils/pyAES.py:537-793 | the first 255 entries of the `rcon` table, entry by entry |
| Galois.XTime | src/gnome_connection_manager/utils/pyAES.py:903-906 | one shift-and-reduce step on a byte; `Galois.XTimeIsReduction` proves it is multiplication by x modulo 0x11B |
| Tables.SboxInvSbox | src/gnome_connection_manager/utils/pyAES.py:19-535 | `sboxInv[sbox[x]] == x` for every byte x |
| Tables.SboxSboxInv | src/gnome_connection_manager/utils/pyAES.py:19-535 | `sbox[sboxInv[x]] == x` for every byte x: the two tables are inverse permutations |
| Galois.XTimeIsReduction | src/gnome_connection_manager/utils/pyAES.py:903-906 | the shift-and-reduce step is multiplication by x modulo x^8+x^4+x^3+x+1 (0x11B) |
| Galois.FieldMulStep | src/gnome_connection_manager/utils/pyAES.py:900-907 | one pass of galoisMult's loop keeps `p ^ a·b` unchanged |
| Galois.HighBitsNeverReachLowByte | src/gnome_connection_manager/utils/pyAES.py:903-908 | on unmasked 16-bit values the low byte of an XOR, the bit-7 test, and the low byte after the shift-and-reduce step depend only on the low bytes |
| Galois.ShiftKeepsHighBits | src/gnome_connection_manager/utils/pyAES.py:904-906 | while bit 15 is clear the shift loses no high bit: the bits above the low byte move up by one |
| Galois.GaloisStep | src/gnome_connection_manager/utils/pyAES.py:901-907 | one pass adds a to p exactly when b is odd, and on the low bytes it is one shift-and-add step of the field product (a becomes x·a, b halves) |
| Galois.WidthGrows | src/gnome_connection_manager/utils/pyAES.py:902-906 | a pass takes a and p from below 2^k to below 2^(k+1), so after eight passes they are below 2^16 and 16 bits hold the source's unbounded integers exactly |
| Galois.GaloisPass | src/gnome_connection_manager/utils/pyAES.py:900-907 | one pass keeps the loop invariant: b loses a bit, a and p grow by at most one bit, and the low byte of p XOR a·b is still the product |
| Galois.GaloisMult | src/gnome_connection_manager/utils/pyAES.py:897-908 | galoisMult(a, b), run on unmasked a and p and reduced by `% 256` at the end, returns the GF(2^8) product of a and b |
| Galois.FieldMulByThree | src/gnome_connection_manager/utils/pyAES.py:914-937 | multiplying by 3 is x·y + y |
| Galois.FieldMulByNine | src/gnome_connection_manager/utils/pyAES.py:943-966 | multiplying by 9 is x^3·y + y |
| Galois.FieldMulByEleven | src/gnome_connection_manager/utils/pyAES.py:943-966 | multiplying by 11 is x^3·y + x·y + y |
| Galois.FieldMulByThirteen | src/gnome_connection_manager/utils/pyAES.py:943-966 | multiplying by 13 is x^3·y + x^2·y + y |
| Galois.FieldMulByFourteen | src/gnome_connection_manager/utils/pyAES.py:943-966 | multiplying by 14 is x^3·y + x^2·y + x·y |
| Columns.MixEntry | src/gnome_connection_manager/utils/pyAES.py:914-919 | entry j of mixColumn is 2·c[j] ^ 1·c[j+3] ^ 1·c[j+2] ^ 3·c[j+1] (indices mod 4), the field products XORed in the source's order |
| Columns.InvMixEntry | src/gnome_connection_manager/utils/pyAES.py:943-948 | entry j of mixColumnInv is 14·c[j] ^ 9·c[j+3] ^ 13·c[j+2] ^ 11·c[j+1] (indices mod 4) |
| Columns.MixColumn | src/gnome_connection_manager/utils/pyAES.py:912-937 | a four-byte column goes to four bytes, each a MixEntry of the column rotated to it |
| Columns.MixColumnInv | src/gnome_connection_manager/utils/pyAES.py:941-966 | a four-byte column goes to four bytes, each an InvMixEntry of the column rotated to it |
| Columns.MixColumnInvMixColumn | src/gnome_connection_manager/utils/pyAES.py:912-966 | mixColumnInv undoes mixColumn on every four-byte column |
| Columns.MixColumnMixColumnInv | src/gnome_connection_manager/utils/pyAES.py:912-966 | mixColumn undoes mixColumnInv on every four-byte column |
| State.SliceIndex | src/gnome_connection_manager/utils/pyAES.py:798-799 | a Python slice bound in range is kept, and a negative one counts from the end |
| State.Rotate | src/gnome_connection_manager/utils/pyAES.py:798-799 | rotate keeps the word's length; `State.RotateIndex` gives where each byte goes |
| State.RotateIndex | src/gnome_connection_manager/utils/pyAES.py:798-799 | rotate(word, n) moves every byte left by the slice start, wrapping around |
| State.RotateInverse | src/gnome_connection_manager/utils/pyAES.py:798-799 | rotate(rotate(w, n), -n) == w for -len(w) <= n <= len(w) |
| State.ShiftRows | src/gnome_connection_manager/utils/pyAES.py:804-806 | shiftRows maps a 16-byte state to a 16-byte state |
| State.ShiftRowsInv | src/gnome_connection_manager/utils/pyAES.py:811-813 | shiftRowsInv maps a 16-byte state to a 16-byte state |
| State.ShiftRowsRows | src/gnome_connection_manager/utils/pyAES.py:804-806 | shiftRows rotates row i left by i |
| State.ShiftRowsInvRows | src/gnome_connection_manager/utils/pyAES.py:811-813 | shiftRowsInv rotates row i right by i |
| State.ShiftRowsMovesBytes | src/gnome_connection_manager/utils/pyAES.py:804-806 | shiftRows puts byte (j + i) mod 4 of row i at column j |
| State.ShiftRowsInvMovesBytes | src/gnome_connection_manager/utils/pyAES.py:811-813 | shiftRowsInv puts byte (j + 4 - i) mod 4 of row i at column j |
| State.ShiftRowsInvShiftRows | src/gnome_connection_manager/utils/pyAES.py:804-813 | shiftRowsInv undoes shiftRows |
| State.ShiftRowsShiftRowsInv | src/gnome_connection_manager/utils/pyAES.py:804-813 | shiftRows undoes shiftRowsInv |
| State.SubBytes | src/gnome_connection_manager/utils/pyAES.py:874-878 | every byte of the state goes through `sbox`, at its own index |
| State.SubBytesInv | src/gnome_connection_manager/utils/pyAES.py:882-884 | every byte of the state goes through `sboxInv` |
| State.AddRoundKey | src/gnome_connection_manager/utils/pyAES.py:888-893 | the state XORed byte by byte with the start of the round key, of the state's length |
| State.SubBytesInvSubBytes | src/gnome_connection_manager/utils/pyAES.py:874-884 | subBytesInv undoes subBytes on a state of any length |
| State.SubBytesSubBytesInv | src/gnome_connection_manager/utils/pyAES.py:874-884 | subBytes undoes subBytesInv |
| State.AddRoundKeyTwice | src/gnome_connection_manager/utils/pyAES.py:888-893 | adding the same round key twice gives back the state |
| State.ColumnsDetermineState | src/gnome_connection_manager/utils/pyAES.py:971-983 | states with equal virtual columns `state[j*4+i]` are equal |
| State.MixColumns | src/gnome_connection_manager/utils/pyAES.py:971-983 | every virtual column of the result is mixColumn of that column |
| State.MixColumnsInv | src/gnome_connection_manager/utils/pyAES.py:988-1000 | every virtual column of the result is mixColumnInv of that column |
| State.MixColumnsInvMixColumns | src/gnome_connection_manager/utils/pyAES.py:971-1000 | mixColumnsInv undoes mixColumns |
| State.MixColumnsMixColumnsInv | src/gnome_connection_manager/utils/pyAES.py:971-1000 | mixColumns undoes mixColumnsInv |
| KeySchedule.KeyScheduleCore | src/gnome_connection_manager/utils/pyAES.py:817-826 | a 4-byte word goes to a 4-byte word; `KeySchedule.KeyScheduleCoreBytes` gives it byte by byte |
| KeySchedule.KeyScheduleCoreBytes | src/gnome_connection_manager/utils/pyAES.py:817-826 | keyScheduleCore(w, i) is [sbox[w1] ^ rcon[i], sbox[w2], sbox[w3], sbox[w0]] |
| KeySchedule.ExpandedKey | src/gnome_connection_manager/utils/pyAES.py:831-870 | the expanded key has 240 bytes and starts with the 32-byte cipher key |
| KeySchedule.ExpandedKeyRecurrence | src/gnome_connection_manager/utils/pyAES.py:848-868 | each later 4-byte word is the word 32 bytes back XOR t, where t is the previous word through keyScheduleCore at multiples of 32 and through the S-box at 16 past one |
| KeySchedule.NextTemp | src/gnome_connection_manager/utils/pyAES.py:849-861 | the loop computes t and increments rconIter exactly at multiples of 32 |
| KeySchedule.AppendWord | src/gnome_connection_manager/utils/pyAES.py:866-868 | the inner loop appends `expandedKey[currentSize - 32] ^ t[i]` byte by byte |
| KeySchedule.ExpandKey | src/gnome_connection_manager/utils/pyAES.py:831-870 | expandKey's loops compute the expanded key |
| Cipher.CreateRoundKey | src/gnome_connection_manager/utils/pyAES.py:1030-1031 | round key n is bytes 16n to 16n+15 of the expanded key |
| Cipher.AesRound | src/gnome_connection_manager/utils/pyAES.py:1004-1013 | subBytes, shiftRows, mixColumns and addRoundKey in that order, on a 16-byte state |
| Cipher.AesRoundInv | src/gnome_connection_manager/utils/pyAES.py:1017-1026 | addRoundKey, mixColumnsInv, shiftRowsInv and subBytesInv in that order, on a 16-byte state |
| Cipher.AesRoundInvAesRound | src/gnome_connection_manager/utils/pyAES.py:1004-1026 | aesRoundInv undoes aesRound under the same round key |
| Cipher.AesRoundAesRoundInv | src/gnome_connection_manager/utils/pyAES.py:1004-1026 | aesRound undoes aesRoundInv under the same round key |
| Cipher.RoundsUpFirst | src/gnome_connection_manager/utils/pyAES.py:1048-1050 | aesMain's loop runs round lo first, then rounds lo+1 onwards |
| Cipher.RoundsDownRoundsUp | src/gnome_connection_manager/utils/pyAES.py:1045-1071 | the inverse loop, running from the highest round key down, undoes the loop |
| Cipher.AesMain | src/gnome_connection_manager/utils/pyAES.py:1045-1055 | round key 0, rounds 1 to numRounds-1, then the final round without mixColumns, on a 16-byte state |
| Cipher.AesMainInv | src/gnome_connection_manager/utils/pyAES.py:1059-1071 | round key numRounds, shiftRowsInv and subBytesInv, then inverse rounds numRounds-1 down to 1, then round key 0 |
| Cipher.AesMainInvAesMain | src/gnome_connection_manager/utils/pyAES.py:1045-1071 | aesMainInv undoes aesMain for every round count the expanded key covers |
| Cipher.AesMainAesMainInv | src/gnome_connection_manager/utils/pyAES.py:1045-1071 | aesMain undoes aesMainInv |
| Cipher.AesEncrypt | src/gnome_connection_manager/utils/pyAES.py:1075-1079 | a 16-byte block goes to a 16-byte block through 14 rounds under the expanded 32-byte key |
| Cipher.AesDecrypt | src/gnome_connection_manager/utils/pyAES.py:1083-1087 | the 14-round inverse under the expanded key, to a 16-byte block |
| Cipher.AesDecryptAesEncrypt | src/gnome_connection_manager/utils/pyAES.py:1075-1087 | aesDecrypt(aesEncrypt(b, k), k) == b for every block and 32-byte key |
| Cipher.AesEncryptAesDecrypt | src/gnome_connection_manager/utils/pyAES.py:1075-1087 | aesEncrypt(aesDecrypt(b, k), k) == b |
| Cipher.AesEncryptInjective | src/gnome_connection_manager/utils/pyAES.py:1075-1079 | under one key, distinct blocks encrypt to distinct blocks |
| Engine.SubBytesInPlace | src/gnome_connection_manager/utils/pyAES.py:874-878 | the loop leaves sbox of every byte in the array |
| Engine.SubBytesInvInPlace | src/gnome_connection_manager/utils/pyAES.py:882-884 | the loop leaves sboxInv of every byte in the array |
| Engine.AddRoundKeyInPlace | src/gnome_connection_manager/utils/pyAES.py:888-893 | the loop XORs the round key into the array |
| Engine.WriteRow | src/gnome_connection_manager/utils/pyAES.py:805-806 | row i of the array takes the four new bytes and every other row keeps its bytes |
| Engine.ShiftRowsInPlace | src/gnome_connection_manager/utils/pyAES.py:804-806 | the slice assignments leave shiftRows of the old state in the array |
| Engine.ShiftRowsInvInPlace | src/gnome_connection_manager/utils/pyAES.py:811-813 | the slice assignments leave shiftRowsInv of the old state in the array |
| Engine.MixEntryOf | src/gnome_connection_manager/utils/pyAES.py:914-919 | four galoisMult calls XORed give one entry of mixColumn |
| Engine.InvMixEntryOf | src/gnome_connection_manager/utils/pyAES.py:943-948 | four galoisMult calls XORed give one entry of mixColumnInv |
| Engine.MixColumnInPlace | src/gnome_connection_manager/utils/pyAES.py:912-937 | overwriting the column from its copy yields mixColumn of the old column |
| Engine.MixColumnInvInPlace | src/gnome_connection_manager/utils/pyAES.py:941-966 | overwriting the column from its copy yields mixColumnInv of the old column |
| Engine.ReadColumn | src/gnome_connection_manager/utils/pyAES.py:973-976 | the new list holds virtual column i |
| Engine.WriteColumn | src/gnome_connection_manager/utils/pyAES.py:982-983 | column i takes the new bytes and the other columns keep theirs |
| Engine.MixColumnAt | src/gnome_connection_manager/utils/pyAES.py:972-983 | one pass mixes column i and leaves the others alone |
| Engine.MixColumnInvAt | src/gnome_connection_manager/utils/pyAES.py:989-1000 | one pass inverse-mixes column i and leaves the other columns alone |
| Engine.MixColumnsInPlace | src/gnome_connection_manager/utils/pyAES.py:971-983 | the column loop leaves mixColumns of the old state in the array |
| Engine.MixColumnsInvInPlace | src/gnome_connection_manager/utils/pyAES.py:988-1000 | the column loop leaves mixColumnsInv of the old state in the array |
| Engine.AesRoundInPlace | src/gnome_connection_manager/utils/pyAES.py:1004-1013 | the four in-place steps compute aesRound |
| Engine.AesRoundInvInPlace | src/gnome_connection_manager/utils/pyAES.py:1017-1026 | the four in-place steps compute aesRoundInv |
| Engine.RoundsUpInPlace | src/gnome_connection_manager/utils/pyAES.py:1048-1050 | the loop applies aesRound with round keys 1 to numRounds-1 in order |
| Engine.RoundsDownInPlace | src/gnome_connection_manager/utils/pyAES.py:1066-1068 | the loop applies aesRoundInv with round keys numRounds-1 down to 1 |
| Engine.AesMainInPlace | src/gnome_connection_manager/utils/pyAES.py:1045-1055 | aesMain on the array equals the aesMain function for any round count |
| Engine.AesMainInvInPlace | src/gnome_connection_manager/utils/pyAES.py:1059-1071 | aesMainInv on the array equals the aesMainInv function |
| Engine.AesEncrypt | src/gnome_connection_manager/utils/pyAES.py:1075-1079 | aesEncrypt returns the 14-round encryption of a copy of the block |
| Engine.AesDecrypt | src/gnome_connection_manager/utils/pyAES.py:1083-1087 | aesDecrypt returns the 14-round decryption of a copy of the block |
| Blocks.Stream.Read | src/gnome_connection_manager/utils/pyAES.py:1093 | read(n) gives the next n bytes or as many as remain; at or past the end it gives nothing and does not move |
| Blocks.Stream.Seek | src/gnome_connection_manager/utils/pyAES.py:1199 | seek(p) moves to p, past the end if need be |
| Blocks.Stream.SeekEnd | src/gnome_connection_manager/utils/pyAES.py:1196-1197 | seek(0, 2) moves to the end, so tell() is the file size |
| Blocks.PadBlock | src/gnome_connection_manager/utils/pyAES.py:1103-1106 | a chunk of 1 to 16 bytes becomes 16 bytes that start with the chunk and end with copies of the number of bytes missing |
| Blocks.BlockAt | src/gnome_connection_manager/utils/pyAES.py:1092-1107 | what getBlock returns from a position: nothing at or past the end, else the padded next chunk; `Blocks.BlockAtShape` spells it out |
| Blocks.BlockAtShape | src/gnome_connection_manager/utils/pyAES.py:1092-1107 | getBlock gives nothing exactly when no byte remains; otherwise 16 bytes, the n bytes read followed by 16-n copies of 16-n |
| Blocks.FillBlock | src/gnome_connection_manager/utils/pyAES.py:1103-1106 | the pad loop stops at 16 bytes and appends only padChar |
| Blocks.GetBlock | src/gnome_connection_manager/utils/pyAES.py:1092-1107 | getBlock's result and the new file position |
| Blocks.StripPad | src/gnome_connection_manager/utils/pyAES.py:1217 | the slice that stops the last byte's value before the end; `Blocks.StripPadKeeps` gives what it keeps |
| Blocks.StripPadKeeps | src/gnome_connection_manager/utils/pyAES.py:1217 | the strip keeps a prefix: 16-p bytes when the last byte p is 1 to 16, and none when it is 0 or above 16 |
| Ofb.PadCount | src/gnome_connection_manager/utils/pyAES.py:1127 | numpads is from 1 to 16 and makes the length a multiple of 16 |
| Ofb.Pad | src/gnome_connection_manager/utils/pyAES.py:1127-1128 | the padded text is the text followed by numpads bytes of value numpads, a multiple of 16 long |
| Ofb.StripPaddedText | src/gnome_connection_manager/utils/pyAES.py:1127-1128 | stripping the last block of the padded text gives back the text |
| Ofb.EncryptSpec | src/gnome_connection_manager/utils/pyAES.py:1127-1167 | the IV, then the padded text XORed block by block with the keystream; `Ofb.EncryptSpecShape` and `Ofb.XorPrefixBlock` state its shape and blocks |
| Ofb.DecryptSpec | src/gnome_connection_manager/utils/pyAES.py:1190-1224 | nothing for an envelope of at most 16 bytes, else the blocks after the IV XORed with the keystream the IV starts, the last one stripped; `Ofb.DecryptEncrypt` proves it inverts EncryptSpec |
| Ofb.EncryptSpecShape | src/gnome_connection_manager/utils/pyAES.py:1127-1167 | the envelope is 16 + len + numpads bytes, whole blocks, and starts with the IV |
| Ofb.XorPrefixBlock | src/gnome_connection_manager/utils/pyAES.py:1152-1164 | output block j is input block j XOR block key j+1, the cipher applied j+1 times to the IV |
| Ofb.XorPrefixUndo | src/gnome_connection_manager/utils/pyAES.py:1203-1224 | XORing the blocks with the same keystream again gives back the input blocks |
| Ofb.DecryptSpecLast | src/gnome_connection_manager/utils/pyAES.py:1203-1224 | decrypt is the XORed blocks followed by the strip of the block that reaches the end of the data |
| Ofb.DecryptEncrypt | src/gnome_connection_manager/utils/pyAES.py:1112-1231 | decrypt(encrypt(text)) == text for every text and IV, with any block cipher used forwards by both |
| Ofb.DecryptEncryptAes | src/gnome_connection_manager/utils/pyAES.py:1112-1231 | decrypt(encrypt(text)) == text with aesEncrypt under the same key |
| Ofb.XorInto | src/gnome_connection_manager/utils/pyAES.py:1159-1160 | `ciphertext[i] = block[i] ^ blockKey[i]` for all 16 positions |
| Ofb.NextBlockKey | src/gnome_connection_manager/utils/pyAES.py:1153-1160 | the first round uses aesEncrypt(IV), later rounds aesEncrypt(blockKey), so round m gets block key m+1 |
| Ofb.EncryptBlocks | src/gnome_connection_manager/utils/pyAES.py:1150-1167 | the block loop writes every padded block XORed with its block key, in order |
| Ofb.Encrypt | src/gnome_connection_manager/utils/pyAES.py:1112-1173 | encrypt returns the IV followed by the XORed padded text |
| Ofb.DecryptBlocks | src/gnome_connection_manager/utils/pyAES.py:1202-1224 | the block loop XORs every block after the IV and strips the one read up to `filesize` |
| Ofb.Decrypt | src/gnome_connection_manager/utils/pyAES.py:1178-1231 | decrypt reads the IV block, seeks to 16 and returns the decryption specification |

## Left out

- passwordToKey (`pyAES.py:1035-1041`, SHA-256 of the password) is not modelled. The 32-byte key is a parameter of `Ofb.Encrypt` and `Ofb.Decrypt`.
- The IV that `encrypt` draws with `randint` is a parameter of `Ofb.Encrypt`.
- Text encodings and base64 are left out. This covers `encode("utf-8")`, the ISO-8859-1 round trip, `b64encode`/`b64decode`, and the final UTF-8 decode in `decrypt`, which can raise. The model works on the bytes in between.
- `BytesIO`'s `close()` is not modelled. The output file is a sequence that the loops extend.
- encrypt's `filesize` is computed as in the source and never used, as in the source.
- `expandKey`'s `assert cipherKeySize == 32` is a precondition (`|key| == KeySize`), not an error path.
- Calls that would raise an IndexError in Python are excluded by preconditions, not modelled as errors. Examples: a round key shorter than the state, or a block that is not 16 bytes.
- `getBlock`'s empty-string result is `None` of an `Option`.
- `decrypt` with 0 to 16 bytes reads an IV (padded when shorter than 16 bytes, nothing when empty) that nothing uses, and returns the empty text. `Ofb.DecryptSpec` states this directly.
- `Engine.AesEncrypt`: the block is a value, and `copy(plaintext)` is the array built from it. Aliasing between the caller's list and the state is not modelled.
- `Tables.Rcon`: `rcon` has 255 entries. The selector's 256th leaf is a filler that the precondition `i < 255` excludes. `expandKey` reads only entries 1 to 7.
- `Galois.GaloisMult`: the arguments are bytes, because every call in the file passes a state byte and a constant below 256.
- The legacy XOR cipher, the version dispatcher and the rest of the application are not part of this model.
