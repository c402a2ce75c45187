# ESurfingDialer core in Dafny

ESurfingDialer is a campus-network client for the China Telecom "ESurfing"
portal. It probes connectivity and negotiates a cipher with the portal by
posting an algorithm id and loading the binary descriptor that comes back.
It then fetches a ticket, logs in with the user's credentials (and an SMS
code when one is needed), and keeps the login alive with heartbeats. Every
request and response body goes through the negotiated cipher. This project
models that core and proves what it promises:

- **Cipher units** (`internal/cipher/impl`), behind one `Encrypt(text)` / `Decrypt(hex)` contract:
  - the modified XTEA unit with three keys, and its IV-chained variant;
  - the two-stage AES-CBC, AES-ECB, Triple-DES-CBC and Triple-DES-ECB units, over a library block primitive;
  - the SM4 and ZUC placeholders, which only hex-encode.
- **The algorithm factory** (`internal/cipher/factory.go`): the closed table from nine algorithm ids to units.
- **The session** (`internal/session/session.go`): the descriptor parser `load`, and the package state `initialized` / `cipherImpl` with `Initialize`, `Encrypt`, `Decrypt` and `Free`.
- **The state record** (`internal/states/states.go`) and `RefreshStates`.
- **The string utilities** (`internal/utils/utils.go`): `ExtractBetweenTags`, the lenient `FixXMLAmpersands` repair, and `UnmarshalXML` as "repair, then decode".
- **The client** (`internal/client/client.go`):
  - the request payloads and `parseRetry`;
  - `initSession`, `getTicket`, `login`, `heartbeat` and `Term`;
  - `authorization` and the rounds of `Run`, including the keep-alive timing rule.

Conventions of the model:

- Go `string` and `[]byte` values are `GoString = seq<byte>`, with a byte an integer in `[0, 256)`.
- `uint32` words are integers below 2^32, with the wrap-around written out.
- `int64` arithmetic in the keep-alive rule wraps explicitly (`Wrap64`).
- A Go panic (a slice out of range, `CryptBlocks` on a partial block, a method call on a nil cipher) is a `None` result.
- The XTEA units hold their keys and IV as raw `[]uint32` slices (`KeySlices`, `seq<Word>`). A key slice shorter than four words or an IV shorter than two panics like any other slice error. The proofs about the ciphertext take the full-length keys (`Xtea.Keys`, `ModXteaIv.IvWords`).
- Go's interface `CipherInterface` becomes the datatype `Cipher.Suite`, with one variant per implementation. `Cipher.Encrypted` and `Cipher.Decrypted` dispatch on it.
- The package variables of `states` are the class `States.States`.
- The package variables of `session` are the class `Session.SessionState`.
- The `Client` struct is the class `Client.Client`.
- Inputs from outside the core are parameters: the network's replies, the connectivity probe, the XML decoder, the clock, random ids and the SMS prompt.

Files, one module each: `bits`, `bytes`, `hex` (arithmetic, byte strings, hex);
`xtea`, `pairblocks`, `pairchain`, `modxtea`, `modxtea_iv` (the XTEA units);
`primitives`, `blockmodes`, `ecb_stages`, `cbc_stages`, `aes_cbc`, `aes_ecb`,
`des_cbc`, `des_ecb`, `placeholders` (the library-based units and placeholders);
`cipher`, `factory`, `session`, `states`, `utils`, `client`.

Where the code and its comments and stated intent disagree, the model follows the code:

- The SM4 and ZUC units are hex pass-throughs, not ciphers.
- An empty ticket does not abort an authorization attempt.
- The session's `Encrypt` and `Decrypt` do not check `initialized`: they use whatever unit is held.
- A failed `initSession` POST leaves `initialized` and the held unit as they were.
- A failed login keeps the previous keep-alive URL, terminate URL and retry interval.

Behaviour of the code as written that the proofs make explicit:

- A `keep-retry` whose value times 1000 exceeds the `int64` range wraps around modulo 2^64 (`Client.KeepAliveRetryRule`). From 9223372036854776 up to 18446744073709551 seconds the wrap is negative, and a heartbeat is due on every round (`Client.KeepAliveHugeRetry`). Larger values can wrap to a positive interval instead: 27670116110564327 seconds waits 9223372036854775384 milliseconds (`Client.KeepAliveWrappedRetry`).
- An `interval` element holding only white space passes the non-empty test before trimming, so `keepRetry` becomes empty. A heartbeat is then due on every round (`Client.Client.Heartbeat`, `Client.KeepAliveWithoutRetry`).
- The AES-CBC unit prefixes every stage with the IV. Decryption skips the prefix and decrypts with the stored IV, so the IV carried in the ciphertext is never read (`AesCbc.PrefixedStageShape`, `AesCbc.RoundTrip`).
- The IV variant of modified XTEA is CBC over 8-byte blocks with the IV words as IV (`PairChain.ChainEncryptIsCbc`, `PairChain.ChainDecryptIsCbc`).

## Model

| member | source | states |
|---|---|---|
| Xtea.DecryptSumValue | internal/cipher/impl/modxtea.go:35-36 | `delta * 32` in `uint32` is the starting `sum` of decryption, and 32 subtractions of `delta` from it bring `sum` back to 0 |
| Xtea.UnroundRound | internal/cipher/impl/modxtea.go:25-42 | one iteration of the decryption loop undoes one iteration of the encryption loop |
| Xtea.RoundUnround | internal/cipher/impl/modxtea.go:25-42 | one iteration of the encryption loop undoes one iteration of the decryption loop |
| Xtea.IterateInverse | internal/cipher/impl/modxtea.go:25-42 | `n` iterations of a left-inverse loop body undo `n` iterations of the body |
| Xtea.IterateSum | internal/cipher/impl/modxtea.go:27 | a loop whose body moves `sum` by `d` moves it by `n * d` modulo 2^32 in `n` iterations |
| Xtea.RoundsInvert | internal/cipher/impl/modxtea.go:25-42 | the decryption round and the encryption round are inverse to each other for every state |
| Xtea.RoundSums | internal/cipher/impl/modxtea.go:27 | each encryption round adds `delta` to `sum` and each decryption round subtracts it, wrapping |
| Xtea.DecryptEncryptPair | internal/cipher/impl/modxtea.go:21-45 | `decryptBlock` undoes `encryptBlock` for every key of at least four words and every block |
| Xtea.EncryptDecryptPair | internal/cipher/impl/modxtea.go:21-45 | `encryptBlock` undoes `decryptBlock`, so the block transform is a bijection |
| Xtea.TripleDecryptEncrypt | internal/cipher/impl/modxtea.go:62-85 | decryption with key3, key2, key1 undoes encryption with key1, key2, key3 |
| Xtea.TripleEncryptDecrypt | internal/cipher/impl/modxtea.go:62-85 | the triple encryption undoes the triple decryption |
| Xtea.DecipherEncipher | internal/cipher/impl/modxtea.go:62-85 | the triple decryption is a left inverse of the triple encryption on every block |
| Xtea.PairBytesInverse | internal/cipher/impl/modxtea.go:59-68 | reading back the eight bytes `PutUint32` writes gives the two words |
| Xtea.ReadPairInverse | internal/cipher/impl/modxtea.go:59-68 | writing the two words read at an offset gives back those eight bytes |
| Xtea.EncryptBlock | internal/cipher/impl/modxtea.go:21-32 | the 32-iteration loop computes the encryption of the block under the key |
| Xtea.DecryptBlock | internal/cipher/impl/modxtea.go:34-45 | the 32-iteration loop, starting from `delta * 32`, computes the decryption of the block |
| Xtea.TripleEncryptBlock | internal/cipher/impl/modxtea.go:62-65 | the three calls apply key1, then key2, then key3 |
| Xtea.TripleDecryptBlock | internal/cipher/impl/modxtea.go:82-85 | the three calls apply key3, then key2, then key1 |
| PairBlocks.PairBlockInverse | internal/cipher/impl/modxtea.go:78-88 | a word-pair transform undone by `u` gives an 8-byte block function undone by `u`'s block function |
| ModXtea.DecryptorInverts | internal/cipher/impl/modxtea.go:58-89 | the block function of `Decrypt` undoes the block function of `Encrypt` on every 8-byte block |
| ModXtea.EncryptedShape | internal/cipher/impl/modxtea.go:49-71 | the ciphertext is upper-case hex, two digits per zero-padded byte, and empty text gives empty ciphertext |
| ModXtea.EncryptedDecodes | internal/cipher/impl/modxtea.go:56-71 | the ciphertext decodes to the block-by-block (unchained) encryption of the padded text |
| ModXtea.EncryptedBlock | internal/cipher/impl/modxtea.go:58-69 | ciphertext block `k` is the triple encryption of padded block `k` alone |
| ModXtea.RoundTrip | internal/cipher/impl/modxtea.go:47-97 | `Decrypt(Encrypt(t))` is `t` without its trailing zero bytes |
| ModXtea.Encrypted | internal/cipher/impl/modxtea.go:47-72 | with four-word keys: upper-case hex of two digits per zero-padded byte |
| ModXtea.Decrypted | internal/cipher/impl/modxtea.go:74-97 | with four-word keys: panics exactly when the decoded length is not a multiple of 8; otherwise at most one byte per two digits, with no trailing zero |
| ModXtea.UnitEncryptPanics | internal/cipher/impl/modxtea.go:47-72 | with the keys as slices: encryption panics exactly when there is a block and a key has fewer than four words (`key[sum&3]`) |
| ModXtea.UnitDecryptPanics | internal/cipher/impl/modxtea.go:74-97 | decryption panics exactly when the decoded bytes are not empty and a key is short or the last block is partial |
| ModXtea.UnitRoundTrip | internal/cipher/impl/modxtea.go:47-97 | whenever encryption does not panic, decryption gives the text without trailing zeros |
| ModXtea.Encrypt | internal/cipher/impl/modxtea.go:47-72 | padding, the block loop into a result buffer and the hex encoding give the unit's result, a panic on a short key included |
| ModXtea.Decrypt | internal/cipher/impl/modxtea.go:74-97 | hex decoding with errors ignored, the block loop and the trailing-zero loop give the unit's result; a short key or a decoded length that is not a multiple of 8 panics |
| PairChain.PairBytesXor | internal/cipher/impl/modxtea_iv.go:61-62 | the bytes of XORed words are the XOR of the words' bytes |
| PairChain.ChainEncryptIsCbc | internal/cipher/impl/modxtea_iv.go:57-73 | the loop's chaining through `prevV0, prevV1` is CBC encryption with the IV words' bytes as IV |
| PairChain.ChainDecryptIsCbc | internal/cipher/impl/modxtea_iv.go:80-101 | XORing each decrypted block with the previous ciphertext block is CBC decryption with the IV words' bytes |
| PairChain.ChainEncryptBuffer | internal/cipher/impl/modxtea_iv.go:57-73 | the encryption loop fills the buffer with the chained encryption, and succeeds exactly on whole blocks |
| PairChain.ChainDecryptBuffer | internal/cipher/impl/modxtea_iv.go:80-101 | the decryption loop fills the buffer with the chained decryption, and succeeds exactly on whole blocks |
| ModXteaIv.EncryptedShape | internal/cipher/impl/modxtea_iv.go:50-75 | as in the unchained unit: upper-case hex of two digits per zero-padded byte, empty for empty text |
| ModXteaIv.EncryptedBlock | internal/cipher/impl/modxtea_iv.go:58-72 | ciphertext block `k` is the triple encryption of padded block `k` XORed with ciphertext block `k - 1`, or with the IV for block 0 |
| ModXteaIv.CorruptionIsLocal | internal/cipher/impl/modxtea_iv.go:83-101 | changing ciphertext block `k` leaves every decrypted block other than `k` and `k + 1` unchanged |
| ModXteaIv.RoundTrip | internal/cipher/impl/modxtea_iv.go:48-109 | `Decrypt(Encrypt(t))` is `t` without its trailing zero bytes |
| ModXteaIv.Encrypted | internal/cipher/impl/modxtea_iv.go:48-76 | with four-word keys and a two-word IV: upper-case hex of two digits per zero-padded byte |
| ModXteaIv.Decrypted | internal/cipher/impl/modxtea_iv.go:78-109 | panics exactly when the decoded length is not a multiple of 8; otherwise at most one byte per two digits, with no trailing zero |
| ModXteaIv.UnitEncryptPanics | internal/cipher/impl/modxtea_iv.go:48-76 | with slices: an IV of fewer than two words panics on every call (`m.iv[0], m.iv[1]`), and a short key panics when there is a block |
| ModXteaIv.UnitDecryptPanics | internal/cipher/impl/modxtea_iv.go:78-109 | a short IV always panics; otherwise as the unchained unit: non-empty decoded bytes with a short key or a partial block |
| ModXteaIv.UnitRoundTrip | internal/cipher/impl/modxtea_iv.go:48-109 | whenever encryption does not panic, decryption gives the text without trailing zeros |
| ModXteaIv.Encrypt | internal/cipher/impl/modxtea_iv.go:48-76 | padding, the chained block loop and the hex encoding give the unit's result, a panic on a short key or IV included |
| ModXteaIv.Decrypt | internal/cipher/impl/modxtea_iv.go:78-109 | hex decoding with errors ignored, the chained loop and the trailing-zero loop give the unit's result, a panic on a short key or IV included |
| Bytes.Padded | internal/cipher/impl/aes_cbc.go:29-33 | the padded data is a whole number of blocks, under one block longer, starts with the data and ends in zeros, and is the data itself when already whole |
| Bytes.PaddedLength | internal/cipher/impl/aes_cbc.go:29-33 | the padded length is the length rounded up to a multiple of the block size |
| Bytes.Pad | internal/cipher/impl/modxtea.go:49-54 | a zeroed buffer of the rounded-up length, with a copy of the data, is `Padded` |
| Bytes.TrimZeros | internal/cipher/impl/aes_cbc.go:66 | `TrimRight(b, "\x00")` is a prefix of `b` that does not end in zero, followed in `b` only by zeros |
| Bytes.TrimZerosAppendZeros | internal/cipher/impl/aes_cbc.go:66 | appending zero bytes does not change what trimming gives |
| Bytes.TrimZerosPadded | internal/cipher/impl/aes_cbc.go:66 | trimming the zero-padded data gives the data with its own trailing zeros trimmed |
| Bytes.TrimTrailingZeros | internal/cipher/impl/modxtea.go:91-94 | the shrinking loop keeps exactly `TrimZeros` of the buffer |
| Bytes.XorInvolution | internal/cipher/impl/modxtea_iv.go:61-62 | XORing twice with the same bytes gives the bytes back |
| Bytes.BigEndianBytesInverse | internal/cipher/impl/modxtea.go:59-68 | reading back the big-endian bytes of a number that fits gives the number |
| Bytes.BigEndianInverse | internal/cipher/impl/modxtea.go:59-68 | writing back the number read from bytes gives the bytes |
| Bytes.WordBytesXor | internal/cipher/impl/modxtea_iv.go:61-62 | `PutUint32(a ^ b)` writes the byte-wise XOR of `PutUint32(a)` and `PutUint32(b)` |
| Bytes.WordBytesInverse | internal/cipher/impl/modxtea.go:59-68 | `binary.BigEndian.Uint32` of the bytes `PutUint32(w)` writes is `w` |
| Bytes.BigEndianWordInverse | internal/cipher/impl/modxtea.go:59-68 | `PutUint32` of the word `Uint32` reads at an offset writes those four bytes back |
| Hex.Encode | internal/cipher/impl/modxtea.go:71 | `hex.EncodeToString` writes two digits per byte |
| Hex.ToUpper | internal/cipher/impl/modxtea.go:71 | `strings.ToUpper` keeps the length and upper-cases each ASCII letter |
| Hex.UpperHexDigits | internal/cipher/impl/modxtea.go:71 | the encoding every unit emits has two upper-case hex digits per byte |
| Hex.Decode | internal/cipher/impl/modxtea.go:75 | `hex.DecodeString` with its error dropped returns at most one byte per two characters |
| Hex.DecodeMeaning | internal/cipher/impl/modxtea.go:75 | byte `i` of the result is the value of the digit pair at `2 * i`, and the result stops at the first pair holding a non-digit or at a lone trailing character |
| Hex.DecodedPrefixUnique | internal/cipher/impl/modxtea.go:75 | that prefix description determines the result: any byte string meeting it is what `hex.DecodeString` returns |
| Hex.UpperHexIsText | internal/cipher/impl/modxtea.go:71 | the upper-case encoding is an even-length text of upper-case hex digits |
| Hex.DecodeUpperHex | internal/cipher/impl/modxtea.go:71-75 | decoding the upper-case encoding gives every byte back |
| Hex.ReencodeHex | internal/cipher/impl/sm4_cbc.go:29 | well-formed hex of either case decodes and re-encodes to its upper-case form |
| Primitives.BackwardInverts | internal/cipher/impl/aes_ecb.go:43-53 | under a key the library accepts, block decryption undoes block encryption, for a sound primitive |
| BlockModes.EcbBlock | internal/cipher/impl/aes_ecb.go:36-38 | ECB output block `k` is the block function of input block `k` alone |
| BlockModes.EcbInverse | internal/cipher/impl/aes_ecb.go:43-53 | ECB with an inverse block function undoes ECB |
| BlockModes.CbcEncryptBlock | internal/cipher/impl/des_cbc.go:37-39 | CBC ciphertext block `k` is the block function of plaintext block `k` XORed with the previous ciphertext block, or the IV (section 6.2 of NIST SP 800-38A) |
| BlockModes.CbcDecryptBlock | internal/cipher/impl/des_cbc.go:44-49 | CBC plaintext block `k` is the inverse block function of ciphertext block `k` XORed with the previous ciphertext block, or the IV |
| BlockModes.CbcRoundTrip | internal/cipher/impl/des_cbc.go:27-50 | CBC decryption with the same IV and an inverse block function undoes CBC encryption |
| BlockModes.CbcCorruptionIsLocal | internal/cipher/impl/des_cbc.go:44-49 | changing ciphertext block `k` affects decrypted blocks `k` and `k + 1` only |
| BlockModes.EcbCorruptionIsLocal | internal/cipher/impl/aes_ecb.go:43-53 | changing ciphertext block `k` affects decrypted block `k` only |
| BlockModes.EcbBuffer | internal/cipher/impl/aes_ecb.go:33-40 | the block loop into a fresh buffer computes ECB, and runs past the end (a panic) exactly on a partial block |
| EcbStages.EncryptStage | internal/cipher/impl/aes_ecb.go:24-41 | padding and the block loop give `EncryptedStage`; a refused key panics unless there is no block |
| EcbStages.DecryptStage | internal/cipher/impl/aes_ecb.go:43-53 | the block loop without padding gives `DecryptedStage`; a partial block panics |
| EcbStages.EncryptedStage | internal/cipher/impl/aes_ecb.go:24-41 | a stage panics exactly on a refused key with data to encrypt; otherwise it returns as many bytes as the padded data |
| EcbStages.DecryptedStage | internal/cipher/impl/aes_ecb.go:43-53 | a stage panics exactly on non-empty data with a refused key or a partial block; otherwise it keeps the length |
| EcbStages.Encrypted | internal/cipher/impl/aes_ecb.go:55-59 | when it does not panic, the output is an even-length text of upper-case hex digits |
| EcbStages.Decrypted | internal/cipher/impl/aes_ecb.go:61-68 | when it does not panic, the output has at most one byte per two digits and no trailing zero |
| EcbStages.EncryptedStageLength | internal/cipher/impl/aes_ecb.go:27-38 | with an accepted key a stage returns as many bytes as the padded input |
| EcbStages.EncryptedStageBlock | internal/cipher/impl/aes_ecb.go:36-38 | stage output block `k` is the primitive applied to padded input block `k` |
| EcbStages.StageRoundTrip | internal/cipher/impl/aes_ecb.go:24-53 | the decryption stage undoes the encryption stage, up to the padding |
| EcbStages.EmptyText | internal/cipher/impl/aes_ecb.go:55-58 | the empty text encrypts to the empty string whatever the keys |
| EcbStages.RefusedKey | internal/cipher/impl/aes_ecb.go:32-38 | a refused first key panics on any non-empty text |
| EcbStages.EncryptedShape | internal/cipher/impl/aes_ecb.go:55-58 | the output is upper-case hex, two digits per padded byte; the second stage adds no padding |
| EcbStages.RoundTrip | internal/cipher/impl/aes_ecb.go:55-67 | decrypting with key2 then key1 gives the text without trailing zeros |
| EcbStages.DecryptedDefined | internal/cipher/impl/aes_ecb.go:61-67 | decryption panics exactly when the decoded length is not a whole number of blocks |
| AesEcb.CiphertextLength | internal/cipher/impl/aes_ecb.go:55-58 | the output has `2 * roundUp16(len(text))` hex digits |
| AesEcb.RoundTrip | internal/cipher/impl/aes_ecb.go:55-67 | `Decrypt(Encrypt(t))` is `t` without trailing zeros |
| AesEcb.Encrypt | internal/cipher/impl/aes_ecb.go:55-59 | two stages, key1 then key2, and upper-case hex |
| AesEcb.Decrypt | internal/cipher/impl/aes_ecb.go:61-68 | hex decoding, two stages with key2 then key1, and trimming |
| DesEcb.CiphertextLength | internal/cipher/impl/des_ecb.go:57-60 | the output has `2 * roundUp8(len(text))` hex digits |
| DesEcb.RoundTrip | internal/cipher/impl/des_ecb.go:57-69 | `Decrypt(Encrypt(t))` is `t` without trailing zeros |
| DesEcb.Encrypt | internal/cipher/impl/des_ecb.go:57-61 | two stages, key1 then key2, and upper-case hex |
| DesEcb.Decrypt | internal/cipher/impl/des_ecb.go:63-70 | hex decoding, two stages with key2 then key1, and trimming |
| CbcStages.EncryptStage | internal/cipher/impl/des_cbc.go:27-42 | padding and `CryptBlocks` give `EncryptedStage`; a refused key or an IV of the wrong size panics |
| CbcStages.DecryptStage | internal/cipher/impl/des_cbc.go:44-50 | `CryptBlocks` over the data as it is gives `DecryptedStage`; a partial block panics |
| CbcStages.EncryptedStage | internal/cipher/impl/des_cbc.go:27-42 | a stage succeeds exactly with an accepted key and an IV of one block, and then returns as many bytes as the padded data |
| CbcStages.DecryptedStage | internal/cipher/impl/des_cbc.go:44-50 | a stage succeeds exactly with an accepted key, a one-block IV and whole blocks, and keeps the length |
| CbcStages.EncryptedStageLength | internal/cipher/impl/des_cbc.go:37-41 | without an IV prefix a stage returns as many bytes as the padded input |
| CbcStages.StageRoundTrip | internal/cipher/impl/des_cbc.go:27-50 | the decryption stage undoes the encryption stage, up to the padding |
| CbcStages.EncryptedStageBlock | internal/cipher/impl/des_cbc.go:37-39 | stage output block `k` is the primitive applied to padded block `k` XORed with the previous output block, or the IV |
| AesCbc.PrefixedStageShape | internal/cipher/impl/aes_cbc.go:27-45 | an AES stage returns the IV followed by the CBC encryption of the padded data: 16 plus the padded length bytes |
| AesCbc.PrefixedStageInverse | internal/cipher/impl/aes_cbc.go:47-53 | decrypting what follows the 16-byte prefix gives the padded data back |
| AesCbc.PrefixedStage | internal/cipher/impl/aes_cbc.go:27-45 | a stage succeeds exactly with an accepted key and a one-block IV; the output is the IV followed by as many bytes as the padded data |
| AesCbc.Encrypted | internal/cipher/impl/aes_cbc.go:55-59 | when it does not panic, the output is an even-length text of upper-case hex digits |
| AesCbc.Decrypted | internal/cipher/impl/aes_cbc.go:61-68 | when it does not panic, the two 16-byte prefixes are dropped: at most one byte per two digits after the first 64, with no trailing zero |
| AesCbc.CiphertextShape | internal/cipher/impl/aes_cbc.go:55-58 | the ciphertext has `32 + roundUp16(len(text))` bytes and starts with the IV |
| AesCbc.EncryptedDecodes | internal/cipher/impl/aes_cbc.go:58 | the output is upper-case hex of the ciphertext, two digits per byte |
| AesCbc.RoundTrip | internal/cipher/impl/aes_cbc.go:55-68 | `Decrypt(Encrypt(t))` is `t` without trailing zeros |
| AesCbc.DecryptedWhole | internal/cipher/impl/aes_cbc.go:61-68 | decryption succeeds on at least 32 decoded bytes in whole blocks |
| AesCbc.DecryptedPanics | internal/cipher/impl/aes_cbc.go:62-64 | fewer than 32 decoded bytes, or a partial block, panics |
| AesCbc.DecryptedDefined | internal/cipher/impl/aes_cbc.go:61-68 | decryption succeeds exactly on at least 32 decoded bytes in whole blocks |
| AesCbc.EncryptStage | internal/cipher/impl/aes_cbc.go:27-45 | padding, `CryptBlocks` and the copies into the result give `PrefixedStage` |
| AesCbc.Encrypt | internal/cipher/impl/aes_cbc.go:55-59 | two prefixed stages, key1 then key2, and upper-case hex |
| AesCbc.Decrypt | internal/cipher/impl/aes_cbc.go:61-68 | hex decoding, then a stage with key2 and one with key1, each skipping 16 bytes, then trimming |
| DesCbc.CiphertextShape | internal/cipher/impl/des_cbc.go:52-55 | the ciphertext has `roundUp8(len(text))` bytes: no IV is prepended |
| DesCbc.EncryptedDecodes | internal/cipher/impl/des_cbc.go:55 | the output is upper-case hex of the ciphertext, two digits per byte |
| DesCbc.RoundTrip | internal/cipher/impl/des_cbc.go:52-65 | `Decrypt(Encrypt(t))` is `t` without trailing zeros |
| DesCbc.DecryptedDefined | internal/cipher/impl/des_cbc.go:58-65 | decryption panics exactly when the decoded length is not a multiple of 8 |
| DesCbc.Encrypted | internal/cipher/impl/des_cbc.go:52-56 | when it does not panic, the output is an even-length text of upper-case hex digits |
| DesCbc.Decrypted | internal/cipher/impl/des_cbc.go:58-65 | when it does not panic, the output has at most one byte per two digits and no trailing zero |
| DesCbc.Encrypt | internal/cipher/impl/des_cbc.go:52-56 | two stages with the same fixed IV, key1 then key2, and upper-case hex |
| DesCbc.Decrypt | internal/cipher/impl/des_cbc.go:58-65 | hex decoding, two stages with key2 then key1 over the whole buffer, then trimming |
| Placeholders.Encrypted | internal/cipher/impl/sm4_cbc.go:20-25 | upper-case hex of the text, two digits per byte, which decodes to the text; keys and IV are not read (likewise sm4_ecb.go and zuc.go) |
| Placeholders.Decrypted | internal/cipher/impl/sm4_cbc.go:27-31 | never fails, and on well-formed hex gives the bytes whose encoding is the input upper-cased |
| Placeholders.RoundTrip | internal/cipher/impl/zuc.go:20-30 | `Decrypt(Encrypt(t)) == t` exactly, trailing zeros included |
| Cipher.RoundTrip | internal/cipher/interface.go:4-7 | every unit with usable keys decrypts its own output: exactly for the placeholders, up to trailing zeros for the others |
| Cipher.UpperHexOutput | internal/cipher/interface.go:4-7 | every unit with usable keys emits upper-case hex |
| Cipher.Encrypted | internal/cipher/interface.go:5 | `Encrypt` of every unit, when it does not panic, is an even-length text of upper-case hex digits |
| Cipher.Decrypted | internal/cipher/interface.go:6 | `Decrypt` of every unit returns at most one byte per two characters of its input |
| Cipher.Encrypt | internal/cipher/interface.go:5 | the unit's `Encrypt` dispatches to that unit's model |
| Cipher.Decrypt | internal/cipher/interface.go:6 | the unit's `Decrypt` dispatches to that unit's model |
| Factory.IdOf | internal/cipher/factory.go:11-28 | every unit variant has an id in the table |
| Factory.GetInstance | internal/cipher/factory.go:9-32 | a unit exactly for the nine ids, of the variant with that id; otherwise the error `unknown algorithm: <id>` |
| Factory.NineIds | internal/cipher/factory.go:11-28 | the table holds nine distinct ids |
| Factory.LibraryEntries | internal/cipher/factory.go:11-18 | the AES and Triple-DES ids give their units with their keys and IVs |
| Factory.PlaceholderEntries | internal/cipher/factory.go:19-24 | the ZUC and SM4 ids give the placeholder units |
| Factory.XteaEntries | internal/cipher/factory.go:25-28 | the two XTEA ids give the three-key unit and the three-key unit with IV |
| Factory.CaseSensitive | internal/cipher/factory.go:10-11 | a lower-cased id is unknown: matching is exact |
| Session.Encode | internal/session/session.go:35-57 | a well-sized descriptor takes `5 + keyLen + idLen` bytes |
| Session.Parse | internal/session/session.go:30-57 | "invalid zsm header" exactly for fewer than 4 bytes; a parsed descriptor is well-sized |
| Session.ParseEncode | internal/session/session.go:30-57 | parsing an encoded descriptor followed by any bytes gives the descriptor back |
| Session.ParsedPrefix | internal/session/session.go:35-57 | a parsed descriptor is read from a prefix of the input, so no index goes out of bounds |
| Session.TrailingBytesIgnored | internal/session/session.go:53-57 | bytes after the id do not change the result |
| Session.LoadedOk | internal/session/session.go:59-64 | `load` succeeds exactly on a well-formed descriptor with a known id; an unknown id gives the factory's error |
| Session.Loaded | internal/session/session.go:30-72 | a loaded unit is the one the factory builds for the returned id; fewer than four bytes never load |
| Session.SessionState.constructor | internal/session/session.go:12-15 | the session starts uninitialized with no unit |
| Session.SessionState.Load | internal/session/session.go:30-72 | on success the unit and `states.AlgoID` are set; on an unknown id the unit becomes nil and the descriptor is dumped; a malformed descriptor changes nothing |
| Session.SessionState.Initialize | internal/session/session.go:18-23 | `initialized` becomes `load`'s success flag, and the error is returned |
| Session.SessionState.Encrypt | internal/session/session.go:79-82 | the held unit's `Encrypt`, without checking the flag; a nil unit panics |
| Session.SessionState.Decrypt | internal/session/session.go:74-77 | the held unit's `Decrypt`, without checking the flag; a nil unit panics |
| Session.SessionState.Free | internal/session/session.go:84-87 | only the flag is cleared |
| States.ToLower | internal/states/states.go:30 | `strings.ToLower` keeps the length and lower-cases each ASCII letter |
| States.Initial | internal/states/states.go:10-26 | initially running, not logged in, no extra URLs and empty ids |
| States.Refreshed | internal/states/states.go:29-35 | a fresh lower-case client id and the zero algorithm id; the MAC is drawn only when empty; nothing else changes |
| States.MacAddressKept | internal/states/states.go:32-34 | once set, the MAC address survives any number of refreshes |
| States.RefreshIdempotent | internal/states/states.go:29-35 | refreshing twice with the same draws is refreshing once |
| States.States.constructor | internal/states/states.go:10-26 | the package variables start with their initial values |
| States.States.RefreshStates | internal/states/states.go:29-35 | the variables become `Refreshed` of what they were |
| Utils.IndexFrom | internal/utils/utils.go:21 | the search returns -1 or an occurrence at or after the start |
| Utils.Index | internal/utils/utils.go:21 | `strings.Index` returns -1 or an occurrence |
| Utils.IndexFound | internal/utils/utils.go:21-24 | `strings.Index` is -1 exactly when there is no occurrence |
| Utils.IndexFirst | internal/utils/utils.go:21 | no occurrence starts before the index returned |
| Utils.ExtractMissing | internal/utils/utils.go:20-29 | "" when the start tag is absent or no end tag follows it |
| Utils.ExtractBetweenTags | internal/utils/utils.go:20-31 | once the start tag is found, the result is the slice of `s` that starts right after it |
| Utils.ExtractBetween | internal/utils/utils.go:25-30 | `start ++ result ++ end` occurs in `s` where the first start tag is |
| Utils.ExtractHasNoEndTag | internal/utils/utils.go:26-30 | the result never contains a non-empty end tag |
| Utils.FixXmlAmpersands | internal/utils/utils.go:59-98 | the index loop with its look-ahead computes `Fixed` |
| Utils.FixedLength | internal/utils/utils.go:59-97 | the output is longer by 4 for every replaced `&` |
| Utils.Fixed | internal/utils/utils.go:59-98 | the repaired text is longer by four bytes for every `&` not kept |
| Utils.SegmentCopied | internal/utils/utils.go:91-94 | a stretch without `&` is copied unchanged and in order |
| Utils.NoAmpersandUnchanged | internal/utils/utils.go:59-98 | input without `&` is returned unchanged |
| Utils.KeptExactly | internal/utils/utils.go:65-90 | a `&` is kept exactly when a `;` follows within the next 9 bytes with no space, `&`, `<` or `>` before it |
| Utils.FixedAllKept | internal/utils/utils.go:83-89 | every `&` in the output is one the repair keeps |
| Utils.AllKeptUnchanged | internal/utils/utils.go:83-85 | text whose every `&` is kept is returned unchanged |
| Utils.FixIdempotent | internal/utils/utils.go:57-98 | repairing twice is repairing once |
| Utils.FixBareAmpersand | internal/utils/utils.go:86-88 | `"A & B"` becomes `"A &amp; B"` |
| Utils.FixEscapedAmpersand | internal/utils/utils.go:83-85 | `"&amp;"` is unchanged |
| Utils.FixEntity | internal/utils/utils.go:70-85 | `"&lt;"` is unchanged |
| Utils.UnmarshalXml | internal/utils/utils.go:101-104 | the decoder sees the repaired text |
| Utils.UnmarshalRepaired | internal/utils/utils.go:101-104 | decoding an already repaired text repairs nothing more |
| Client.Wrap64 | internal/client/client.go:64 | the `int64` wrap of a value is in range and leaves in-range values alone |
| Client.ParseRetry | internal/client/client.go:310-314 | `Sscanf("%d")` into an `int64` always yields an `int64` |
| Client.DecimalRoundTrip | internal/client/client.go:312 | the decimal digits of `n` read back as `n` |
| Client.RetryRoundTrip | internal/client/client.go:310-314 | a decimal `int64` followed by a non-digit parses to its value |
| Client.RetryNegative | internal/client/client.go:310-314 | a `-` sign negates, down to `-2^63` |
| Client.RetryOverflow | internal/client/client.go:310-314 | a value out of the `int64` range is a scan error and leaves 0 |
| Client.RetryNeedsInteger | internal/client/client.go:310-314 | a string that does not start with an integer, the empty one included, gives 0 |
| Client.KeepAliveDue | internal/client/client.go:64 | without overflow a heartbeat is due exactly when `now - tick >= parseRetry(keepRetry) * 1000` |
| Client.KeepAliveEvery | internal/client/client.go:64 | with a retry of `n` seconds a heartbeat is due exactly after `n * 1000` ms |
| Client.KeepAliveWithoutRetry | internal/client/client.go:64 | with no retry interval a heartbeat is due on every round |
| Client.KeepAliveRetryRule | internal/client/client.go:64 | for every retry of `n < 2^63` seconds, a heartbeat is due exactly when the wrapped `now - tick` is at least the wrapped `n * 1000` |
| Client.KeepAliveHugeRetry | internal/client/client.go:64 | a retry of 9223372036854776 to 18446744073709551 seconds, whose milliseconds lie between 2^63 and 2^64, wraps negative and makes a heartbeat due at once |
| Client.KeepAliveWrappedRetry | internal/client/client.go:64 | a retry of 27670116110564327 seconds wraps to a positive interval of 9223372036854775384 milliseconds, so the heartbeat is due only after that many milliseconds |
| Client.TrimSpaceSplit | internal/client/client.go:186 | `strings.TrimSpace` removes exactly the leading and trailing white space |
| Client.TrimSpaceIdempotent | internal/client/client.go:230-232 | trimming a trimmed value changes nothing |
| Client.TrimSpace | internal/client/client.go:230-232 | the trimmed value is no longer than the input, and neither starts nor ends with white space |
| Client.TicketPayloadHolds | internal/client/client.go:148-168 | the ticket request starts with the XML prologue and holds the client id, local time, host name (twice), IPv4, MAC and gateway IP, each in its own element line |
| Client.KeepPayloadHolds | internal/client/client.go:240-260 | the keep-alive request starts with the prologue and holds the client id, local time, host name (twice), IPv4, ticket and MAC in their element lines |
| Client.LoginPayloadHolds | internal/client/client.go:195-212 | the login request starts with the prologue and holds the client id, ticket, local time, user id and password in their element lines, whatever fills the verification slot |
| Client.Received | internal/client/client.go:214-228 | a reply panics exactly when there is no unit or decryption panics; a POST error is unusable; decoded fields are what the decoder gives for the repaired, decrypted body |
| Client.LoginVerifies | internal/client/client.go:190-212 | the login payload carries `<verify>code</verify>` in its slot exactly when the SMS code is non-empty |
| Client.Client.constructor | internal/client/client.go:48-54 | a new client has no URLs, no retry interval and tick 0 |
| Client.Client.Exchange | internal/client/client.go:214-228 | encrypt, POST, decrypt, repair and decode: the outcome is `Answer`, and a body is posted exactly when encryption did not panic |
| Client.Client.InitSession | internal/client/client.go:138-145 | the algorithm id is posted to the ticket URL; a POST error changes nothing, otherwise `Initialize` runs on the reply |
| Client.Client.GetTicket | internal/client/client.go:147-187 | the trimmed `ticket` element, or "" after a POST or XML error; only a decryption panic fails |
| Client.Client.Login | internal/client/client.go:189-237 | the three fields are replaced by the trimmed elements only after a decoded reply, and keep their values otherwise |
| Client.Client.Heartbeat | internal/client/client.go:239-281 | the keep-alive payload is posted to the keep-alive URL; the trimmed interval replaces `keepRetry` only when the decoded, untrimmed element is non-empty |
| Client.Client.Term | internal/client/client.go:284-308 | the keep-alive payload with the stored ticket is posted to the terminate URL; the reply is ignored |
| Client.Client.Negotiate | internal/client/client.go:93-94 | after `RefreshStates` and `initSession` the session is negotiated as the reply decides; the login flags are untouched |
| Client.Client.FetchTicket | internal/client/client.go:106 | `states.Ticket` becomes what `getTicket` returns, and nothing else in the state changes |
| Client.Client.SignIn | internal/client/client.go:106-119 | an empty keep-alive URL after login frees the session and stops the process; otherwise the client is logged in with `tick = now` |
| Client.Client.Authorization | internal/client/client.go:86-120 | without a negotiated session the process stops; otherwise as `SignIn`; a panic leaves the login flag as it was |
| Client.Client.KeepAlive | internal/client/client.go:62-73 | when connected, negotiated, logged in and due, a heartbeat is posted to the keep-alive URL and `tick` is reset; otherwise nothing changes |
| Client.Client.Step | internal/client/client.go:58-83 | one round: `Success` as `KeepAlive`; `RequireAuthorization` clears `IsLogged` and then authorizes; `RequestError` changes nothing; a logged-in client stays consistent |
| Client.Client.Run | internal/client/client.go:57-84 | rounds are taken while running, and a logged-in client always has a negotiated session and a keep-alive URL |

## Left out

- The AES (FIPS 197) and Triple-DES (NIST SP 800-67) block primitives are not modelled. Each library unit holds a `Primitive` value. Its key validity and block size follow `crypto/aes` and `crypto/des`. The round trips assume it is sound (`Primitives.Sound`: decryption undoes encryption under an accepted key).
- The key and IV constants of the factory (`Key1_CAFBCBAD` and the others) are in a file that is not part of this model. The factory takes them as a `KeyTable` parameter.
- Real SM4 and ZUC are not in the code. Only the hex pass-through is modelled.
- The network is left out: `network.Post`, its headers, redirects, interface binding and `DetectConfig`. Replies are `Reply` inputs and the probe is a `ConnectivityStatus` input.
- `encoding/xml` decoding is an input function (`XmlDecoder`) from text to the child elements of `<response>`, or a parse error.
- The clock, `GetTime`, `uuid.New`, `RandomMACAddress` and `constants.HostName` are inputs. One `localTime` is used for every request of an attempt.
- `time.Sleep` is left out.
- `saveBytesToFile` is recorded only as the ghost sequence `dumps` of dumped descriptors. The file, its name and the printed messages are left out.
- The command line, signal handling and the stdin prompt of `checkSMSVerify` are left out. The prompted code is an input of each attempt.
- The verification-code requests of `checkSMSVerify` are left out.
- `DetectConfig` writes the state record (user IP, AC IP, URLs); those writes are left out.
- Printing is left out.
- `TrimSpace` and `Sscanf` treat only ASCII white space as space. Unicode white space is not modelled.
- Client.Client.Run: runs over a finite sequence of rounds, where the Go loop runs until `IsRunning` is false.
- Client.Client.Step: states the login flags, `tick` and the posts' URLs. The request bodies and field values are stated by `GetTicket`, `Login`, `Heartbeat` and `Exchange`.
- Client.Client.Authorization: states the login flags, `IsRunning` and `tick`, not the request bodies, which the request methods state.
- Client.Client.SignIn: states the login flags, `IsRunning` and `tick`, not the field values, which `Login` states.
- Client.Client.KeepAlive: states the URL of the heartbeat POST and the new `tick`; its body and the new `keepRetry` are stated by `Heartbeat`.
