# libgcrypt core: cipher modules, cipher sessions and the AC layer, in Dafny

This project models the part of libgcrypt that its interface header and its
two module tests define by declaration and assertion. It covers four areas.

- **The cipher module registry.** The built-in ciphers (IDEA, 3DES, CAST5,
  Blowfish, SAFER-SK128, DES-SK, Twofish: ids 1–6 and 10) are live from the
  start. A user-supplied cipher descriptor is registered under a fresh id,
  listed after the built-ins, looked up by id and unregistered again.
- **Cipher sessions.** A session is opened on a live cipher with a mode
  (NONE, ECB, CFB, CBC) and flags (SECURE, ENABLE_SYNC). It is driven
  through the control commands SET_KEY, SET_IV, CFB_SYNC and RESET, and
  encrypts and decrypts with the descriptor's per-block transforms chained
  as the mode prescribes:
  - ECB, CBC and CFB follow sections 6.1, 6.2 and 6.3 of NIST SP 800-38A.
  - CFB runs as a byte stream with full-block feedback, so it accepts
    partial blocks.
  - The test's `FOO` cipher (XOR of every byte with 0x42, 16-byte blocks)
    and its register / CBC encrypt / reset / decrypt / list / unregister
    scenario are modelled end to end.
- **The AC layer.** Labeled value sets are ordered `(label, integer)` lists
  with `get_index`, `set` (replace in place or append), `copy` and `destroy`.
  - An AC handle is bound to one public-key algorithm; key pairs have a
    secret and a public half.
  - Data encrypt, decrypt, sign and verify check the key before handing
    over to the algorithm's scheme.
  - The scheme's arithmetic is a parameter. What the layer needs of it is
    the contract `Ac.Sound`. For every key pair the scheme generates and
    every value in range of the key size:
    - encryption succeeds and decryption gives the value back, whatever
      the blinding setting and seed;
    - signing succeeds and gives a non-empty signature;
    - the signature verifies;
    - raising any one signature component by one gives BAD_SIGNATURE.
  - `Ac.ToySchemeIsSound` shows the contract can be met.
  - The test's open / generate / extract / encrypt / decrypt / sign / copy /
    destroy / verify / tamper scenario is proved against any scheme that
    meets the contract.
- **Header facts.**
  - The `gcry_md_putc` buffer macro, with the digest behind the handle
    represented by the stream of bytes it has been given.
  - The control-command, mode, flag, cipher-id, public-key-id and error-code
    numbering, each with a reader and a round-trip lemma.
- **Modes by their definitions.** Beyond the round trips, ECB and CBC are
  proved block by block against the formulas of NIST SP 800-38A, and CFB
  is proved to be a byte stream: splitting the input across calls changes
  nothing.

Files: `errors.dfy` (error codes, `Result`, `Option`), `constants.dfy`
(header enumerations), `bytes.dfy` (bytes and XOR), `md_putc.dfy`,
`block_modes.dfy` (ECB, CBC, CFB), `registry.dfy`, `session.dfy`,
`foo_cipher.dfy`, `ac_data.dfy`, `ac.dfy`.

### Readings chosen where the library's implementation files are not modelled

The library's implementation files (`cipher.c`, `module.c`, `md.c`, `ac.c`
under `src/`) are not part of this model. Where behaviour beyond the
header and the tests was needed, the model chooses one reading and states
it here.

- **No key needed before use.** A session may encrypt before any key is
  set. The register test does exactly that and asserts success, so the
  model has no "not keyed" state. A key-before-use rule would forbid
  this; the model follows the test.
- **Reset keeps the key.** Reset zeroes the chaining value, the previous
  register and the unused-keystream count, and keeps the key. Open starts
  from that same reset state, which is what makes the test's
  encrypt / reset / decrypt round trip work.
- **Error codes.**
  - Output buffer shorter than the input: TOO_SHORT.
  - ECB or CBC input that is not whole blocks: INV_ARG.
  - Unknown cipher id: INV_CIPHER_ALGO.
  - Unknown mode code, or a flag word with other bits set: INV_ARG.
  - Unknown control command: INV_OP.
  - A registration with an empty name, a zero block length or a name
    already live (compared ignoring ASCII case): INV_ARG.
  - Unregistering an id that is not live: INV_CIPHER_ALGO.
  - A label `get` cannot find: NO_OBJ.
  - A `get_index` position out of range: INV_ARG.
  - A set handle that is not live: INV_OBJ.
  - Unknown public-key algorithm: INV_PK_ALGO.
  - A key of another algorithm: WRONG_PK_ALGO.
  - A key of the wrong role: BAD_PUBLIC_KEY or BAD_SECRET_KEY.
- **Fresh cipher ids** are above every id currently listed and at least
  600. The dynamic id numbering is fixed by the module code, which is not
  modelled. An id can be handed out again once its cipher is
  unregistered (`CipherRegistry.RegisterReusesFreedId`).
- **SET_IV** copies at most one block of the vector and pads a short one
  with zero bytes. **CFB_SYNC** acts only on sessions opened with
  ENABLE_SYNC and only in the middle of a block. It realigns the register
  so that it holds the last block's worth of ciphertext. Mode NONE passes
  data through unchanged.
- **`gcry_md_putc`'s flush.** The `gcry_md_write(h, NULL, 0)` call hands
  the buffered bytes to the digest and empties the buffer.

## Model

| member | source | states |
|---|---|---|
| Errors.CodeRoundTrip | src/gcrypt.h:48-75 | each error code reads back from its header number, and a number that reads back names the code it came from |
| Errors.CodeInjective | src/gcrypt.h:48-75 | no two error codes share a number (in particular BAD_SIGNATURE 8 is not SUCCESS 0) |
| Constants.CtlRoundTrip | src/gcrypt.h:81-100 | the control commands are numbered 1..18 in order and read back from their numbers |
| Constants.CipherAlgoRoundTrip | src/gcrypt.h:212-221 | each cipher id reads back from its number and only its own number names it; exactly 0..6 and 10 name a cipher |
| Constants.PkAlgoRoundTrip | src/gcrypt.h:270-277 | each public-key algorithm reads back from its number and only its own number names it; exactly 1, 2, 3, 16, 17 and 20 name one |
| Constants.BuiltinCipherIdsAreTheNamedCiphers | src/gcrypt.h:212-221 | the built-in id set {1,2,3,4,5,6,10} is exactly the set of codes of the named ciphers; 0 (none) is not among them |
| Constants.ModeRoundTrip | src/gcrypt.h:223-228 | NONE, ECB, CFB and CBC have the distinct codes 0..3, and no other number names a mode |
| Constants.FlagsRoundTrip | src/gcrypt.h:230-233 | SECURE=1 and ENABLE_SYNC=2 are distinct single bits; every combination has its own flag word and reads back |
| MdPutc.LowByte | src/gcrypt.h:346 | the byte stored is `c & 0xff`: always in 0..255, equal to `c` for `c` in 0..255 |
| MdPutc.MdWrite | src/gcrypt.h:330 | a write hands the digest the buffered bytes and then the data, in order, and empties the buffer |
| MdPutc.Putc | src/gcrypt.h:342-347 | the flush happens exactly when `bufpos == bufsize`; then the low byte of `c` is stored at the write position and `bufpos` advances by exactly one; the handle stays well formed and the stream grows by that one byte |
| MdPutc.PutcAllAppendsStream | src/gcrypt.h:342-347 | writing characters one `putc` at a time hands the digest the same byte stream as one `md_write` of their low bytes: nothing lost, repeated or reordered across flushes |
| BlockModes.Ecb | src/gcrypt.h:225 | ECB takes only whole blocks and its output is exactly as long as its input |
| BlockModes.EcbBlocks | src/gcrypt.h:225 | output block k is the block transform of input block k, for every block k (section 6.1 of NIST SP 800-38A) |
| BlockModes.CbcEncrypt | src/gcrypt.h:227 | CBC encryption takes only whole blocks, keeps the length, and leaves as chaining value the last ciphertext block (the old value for empty input) |
| BlockModes.CbcDecrypt | src/gcrypt.h:227 | CBC decryption takes only whole blocks, keeps the length, and leaves as chaining value the last ciphertext block it read (the old value for empty input) |
| BlockModes.CbcEncryptBlocks | src/gcrypt.h:227 | ciphertext block k is the transform of plaintext block k XORed with the previous ciphertext block, or with the chaining value for k = 0 (section 6.2 of NIST SP 800-38A) |
| BlockModes.CbcDecryptBlocks | src/gcrypt.h:227 | plaintext block k is the inverse transform of ciphertext block k XORed with the previous ciphertext block, or with the chaining value for k = 0 |
| BlockModes.CfbEncrypt | src/gcrypt.h:226 | CFB encryption accepts any length, keeps it, and leaves a well-formed feedback state of the same register length |
| BlockModes.CfbDecrypt | src/gcrypt.h:226 | CFB decryption accepts any length, keeps it, and leaves a well-formed feedback state of the same register length |
| BlockModes.CfbEncryptSplit | src/gcrypt.h:226 | CFB encryption is a byte stream: encrypting p and then q gives the same bytes and end state as encrypting p + q at once |
| BlockModes.CfbDecryptSplit | src/gcrypt.h:226 | the same stream property for CFB decryption |
| BlockModes.CfbSync | src/gcrypt.h:232 | sync leaves no keystream unused, keeps the previous register, changes nothing at a block boundary, and otherwise makes the register the tail of the previous register followed by the bytes used in the current block |
| BlockModes.EcbRoundTrip | src/gcrypt.h:225 | ECB decryption undoes ECB encryption whenever the block decryption undoes block encryption |
| BlockModes.CbcRoundTrip | src/gcrypt.h:227 | CBC decryption from the same chaining value returns the plaintext and ends with the same chaining value as encryption |
| BlockModes.CbcRoundTripReverse | src/gcrypt.h:227 | in the other direction, CBC encryption of a CBC decryption returns the ciphertext and the same chaining value |
| BlockModes.CfbRoundTrip | src/gcrypt.h:226 | CFB decryption from the same feedback state returns the plaintext and the same final state, for any block transform and any input length |
| BlockModes.CfbWithinBlock | src/gcrypt.h:226 | within one register of keystream the ciphertext bytes overwrite the used keystream bytes in order, and nothing else in the state changes |
| BlockModes.CfbSyncRealigns | src/gcrypt.h:255-256 | resynchronising after up to one block leaves the register holding the last block's worth of ciphertext |
| CipherRegistry.Init | src/gcrypt.h:212-221 | the start-up registry is well formed, lists exactly the built-in ids, and lists them in ascending order |
| CipherRegistry.Lookup | tests/register.c:108-109 | an id resolves iff it is live; an id that is not live gives INV_CIPHER_ALGO |
| CipherRegistry.NextFreeId | tests/register.c:105-106 | a fresh id is above every listed id and at least the dynamic floor, so it is never a built-in id |
| CipherRegistry.Register | tests/register.c:105-106 | registration succeeds iff the name is non-empty, the block length positive and the name not live (ignoring case), else INV_ARG; the new id was not listed and is not built-in; it is appended to the list and resolves to the descriptor; every other id resolves as before; the registry stays well formed |
| CipherRegistry.Unregister | tests/register.c:131-134 | unregistering succeeds iff the id is live, else INV_CIPHER_ALGO; the id leaves the list and no longer resolves; every other id is listed, in the same relative order, and resolves as before |
| CipherRegistry.WithoutKeepsOrder | tests/register.c:131-134 | removing an id keeps the relative order of every other id, and no other pair changes order |
| CipherRegistry.RegisterReusesFreedId | tests/register.c:105-134 | after a register / unregister pair, the next registration receives the freed id again |
| CipherRegistry.RegisterUnregister | tests/register.c:105-134 | register followed by unregister restores the same list, in the same order, and the same lookups |
| CipherRegistry.CheckList | tests/register.c:75-93 | the scan returns true iff the id occurs in the list |
| CipherRegistry.AlgoInfo | src/gcrypt.h:240 | the info call answers only GET_KEYLEN, GET_BLKLEN and TEST_ALGO (else INV_OP), only with NULL buffer and length (else INV_ARG), and only for live ids (else INV_CIPHER_ALGO) |
| CipherRegistry.AlgoInfoAliases | src/gcrypt.h:258-263 | `get_algo_keylen`, `get_algo_blklen` and `test_algo` report the live descriptor's key length, block length and 0, and INV_CIPHER_ALGO for an id that is not live |
| CipherSession.Open | tests/register.c:108-109 | open succeeds iff the id is live, the mode code valid and the flag word uses only the two flags; errors as listed above; the new session resolves to the registered descriptor, carries the requested mode and flags, and is in the reset state |
| CipherSession.InputCheck | src/gcrypt.h:244-247 | encryption and decryption refuse an output buffer shorter than the input (TOO_SHORT) and, for ECB and CBC, input that is not a multiple of the block length (INV_ARG), and nothing else |
| CipherSession.Encrypt | src/gcrypt.h:244-245 | encryption fails exactly as the input check says; on success the output is as long as the input and the cipher, mode, flags and key are unchanged |
| CipherSession.Decrypt | src/gcrypt.h:246-247 | decryption fails exactly as the input check says; on success the output is as long as the input and the cipher, mode, flags and key are unchanged |
| CipherSession.DecryptInvertsEncrypt | src/gcrypt.h:244-247 | in every mode, decrypting the ciphertext from the state encryption started in gives the plaintext back and the very session state encryption ended in (block modes need only that the block decryption inverts the block encryption) |
| CipherSession.Reset | tests/register.c:117-118 | reset returns the chaining state to the fresh-session state and keeps cipher, mode, flags and key |
| CipherSession.ResetForgetsTraffic | tests/register.c:117-124 | resetting after any encryption or decryption gives the same session as resetting before it; reset is the identity on a reset session |
| CipherSession.EncryptResetDecrypt | tests/register.c:111-124 | on a fresh session, encrypt then reset then decrypt into an equally large buffer returns the plaintext |
| CipherSession.SetKey | src/gcrypt.h:251-252 | key setup succeeds iff the descriptor's key schedule accepts the key, returns its error otherwise, and on success keeps the key and leaves the chaining state alone |
| CipherSession.SetIv | src/gcrypt.h:253-254 | the chaining value becomes the vector's first bytes, zero-padded to one block, with no keystream left unused |
| CipherSession.SetIvLastWins | src/gcrypt.h:253-254 | setting a vector twice is setting the second; the empty vector gives the reset chaining value; a full-block vector is taken as is |
| CipherSession.Sync | src/gcrypt.h:255-256 | sync changes nothing unless the session was opened with ENABLE_SYNC and is mid-block, and leaves no keystream unused when the flag is set |
| CipherSession.SyncRealignsOnCiphertext | src/gcrypt.h:232 | on a sync-enabled CFB session at a block boundary, encrypting up to one block and syncing leaves the chaining value equal to the last block's worth of ciphertext |
| CipherSession.Ctl | src/gcrypt.h:238 | any command other than SET_KEY, SET_IV, CFB_SYNC and RESET is refused with INV_OP; a successful call leaves a well-formed session |
| CipherSession.CtlAliases | src/gcrypt.h:251-256 | `setkey`, `setiv` and `sync` are the control call with commands 1, 2 and 3 (sync with a NULL buffer of length 0) and do what key setup, IV setup and sync do; command 4 resets; numbers outside 1..4 give INV_OP |
| FooCipher.XorEach | tests/register.c:55-56 | output byte i is input byte i XOR the mask, for every i, and the length is kept |
| FooCipher.FooRegisters | tests/register.c:105-106 | registering `cipher_spec_foo` succeeds iff no live cipher is already named FOO (in any case), and the new id is listed and was not before |
| FooCipher.FooTransforms | tests/register.c:50-66 | `foo_encrypt` and `foo_decrypt` compute the same function, each is an involution, decryption undoes encryption, and every output byte differs from its input byte |
| FooCipher.FooInverts | tests/register.c:55-65 | under every key, FOO block decryption inverts FOO block encryption on 16-byte blocks |
| FooCipher.Plain | tests/register.c:100 | the test's plaintext buffer holds 16 bytes: the 15 characters and the terminating NUL |
| FooCipher.FirstCbcBlockDiffers | tests/register.c:111-115 | with the all-zero chaining value of a fresh session, every byte of the first CBC ciphertext block differs from the plaintext |
| FooCipher.FooSessionRun | tests/register.c:108-124 | a CBC session on FOO opens; encrypting the plaintext succeeds and changes every byte; after reset the ciphertext decrypts to the plaintext |
| FooCipher.CheckRun | tests/register.c:95-135 | the whole test: the ciphertext differs from the plaintext in every byte, the decryption equals the plaintext, the id is listed after registration and not listed after unregistration |
| AcData.IndexOf | tests/ac.c:105-106 | the position found holds the label and no earlier entry does; none is found iff no entry has the label |
| AcData.Get | tests/ac.c:105-106 | `get` by label succeeds iff the label is present, giving a value stored under it; NO_OBJ otherwise |
| AcData.GetIndex | tests/ac.c:101-102 | `get_index(i)` succeeds iff `i` is a position of the set and returns that entry; INV_ARG otherwise |
| AcData.Set | tests/ac.c:105-106 | `set` on a present label keeps the length; on an absent label it appends exactly one entry at the end |
| AcData.GetIndexThenSet | tests/ac.c:101-106 | reading component i by position and writing a new value under the label read rewrites component i and nothing else, for i = 0 or with unique labels |
| AcData.SetThenGet | tests/ac.c:105-106 | after `set`, the label reads back the new value, every other label reads as before, and unique labels stay unique |
| AcData.SetInPlace | tests/ac.c:105-106 | `set` on an existing label changes the value at its position only; length and label order are unchanged |
| AcData.SetFirstByLabel | tests/ac.c:101-106 | writing component 0's label back with a new value rewrites component 0 and nothing else |
| AcData.SetByLabelAt | tests/ac.c:101-106 | with unique labels, setting component i's label rewrites component i and nothing else |
| AcData.Copy | tests/ac.c:83-84 | copy succeeds iff the source handle is live (else INV_OBJ) and adds a fresh handle holding the same entries, all other sets unchanged |
| AcData.Destroy | tests/ac.c:85 | destroy succeeds iff the handle is live (else INV_OBJ) and removes that set only |
| AcData.SetIn | tests/ac.c:105-106 | `set` through a handle succeeds iff the handle is live and changes that set only |
| AcData.CopyIndependent | tests/ac.c:83-88 | a copy and its source are independent: updating or destroying either leaves the other's entries unchanged |
| AcData.CopyDestroyCopyDestroy | tests/ac.c:83-91 | copy, destroy the source, copy back and destroy the intermediate leave one live set with exactly the original entries |
| Ac.Open | tests/ac.c:57-58 | open succeeds iff the algorithm is available, else INV_PK_ALGO, and binds that algorithm's scheme |
| Ac.KeyPairGenerate | tests/ac.c:63-64 | generation succeeds iff the scheme's generation does and yields a secret and a public key of the handle's algorithm |
| Ac.KeyPairExtract | tests/ac.c:66-67 | extraction returns the half of the pair with the requested role; the pair keeps both |
| Ac.KeyCheck | tests/ac.c:69-74 | a data operation accepts a key iff it belongs to the handle's algorithm and has the needed role; the algorithm check comes first |
| Ac.DataEncrypt | tests/ac.c:69-71 | encryption refuses a key of another algorithm (WRONG_PK_ALGO) or a secret key (BAD_PUBLIC_KEY), and otherwise is the scheme's encryption under the key's material with the blinding flag |
| Ac.DataDecrypt | tests/ac.c:73-75 | decryption refuses a key of another algorithm (WRONG_PK_ALGO) or a public key (BAD_SECRET_KEY), and otherwise is the scheme's decryption under the key's material |
| Ac.DataSign | tests/ac.c:81-82 | signing refuses a key of another algorithm (WRONG_PK_ALGO) or a public key (BAD_SECRET_KEY), and otherwise is the scheme's signing under the key's material |
| Ac.DataVerify | tests/ac.c:90-91 | verification refuses a key of another algorithm (WRONG_PK_ALGO) or a secret key (BAD_PUBLIC_KEY), and otherwise returns the scheme's verdict as it is |
| Ac.ToySchemeIsSound | tests/ac.c:69-109 | the scheme contract `Sound` that the test's assertions rely on can be met |
| Ac.Bump | tests/ac.c:103 | the tampered signature differs from the original only in component i, whose value is one higher |
| Ac.ForeignKeyRefused | tests/ac.c:69-74 | every data operation refuses a key of another algorithm with WRONG_PK_ALGO |
| Ac.GeneratedPairWorks | tests/ac.c:69-109 | for a pair generated on a sound scheme and a value in range: decrypt(secret, encrypt(public, x)) = x, sign then verify gives SUCCESS, raising any signature component by one gives BAD_SIGNATURE, and each of the four operations refuses the half of the wrong role |
| Ac.TestValueInRange | tests/ac.c:49 | 0x4223 lies within the range a 1024-bit key handles |
| Ac.CheckRun | tests/ac.c:42-113 | the whole test: the decrypted value equals 0x4223, the copied signature verifies, and the tampered one gives exactly BAD_SIGNATURE |

## Left out

- The library's implementation files are not part of this model. Behaviour
  they would fix is the set of readings listed above.
- Multi-precision integers and S-expressions (`src/gcrypt.h:111-202`) are
  foreign. AC values are unbounded integers, and algorithm material is a
  labeled value set.
- RSA key generation and arithmetic are not modelled. Every public-key
  scheme is a parameter constrained only by `Ac.Sound`.
- The built-in ciphers' block arithmetic is not modelled: a built-in
  descriptor is whatever the caller passes to `CipherRegistry.Init`.
- Randomness is a seed parameter. Allocation, secure memory and the
  random-pool functions (`src/gcrypt.h:362-396`) are left out; so is the
  SECURE flag's effect on where memory comes from.
- Locking and thread safety of the registry are left out; the model is
  sequential.
- Unregistering a cipher while a session on it is still open is left out.
  The test closes the session first, and a model session keeps its own copy
  of the descriptor.
- The hash algorithms behind `gcry_md_write` are left out, and so is the
  rest of the message-digest interface (open, final, read, algorithm info).
  The digest is represented by the byte stream it receives.
- The public-key `ctl` and `algo_info` commands (`GET_ALGO_NPKEY` … and the
  `gcry_pk_*` aliases) are left out. So are the control commands
  FINALIZE, IS_SECURE, GET_ASNOID, ENABLE_ALGO, DISABLE_ALGO and the two
  DUMP commands.
- The two-call protocol of `gcry_cipher_list` is not modelled, because it
  is a buffer-sizing convention of the C interface. The first call asks for
  the length; the second fills a caller-allocated buffer. The model returns
  the list as a sequence.
- `gcry_cipher_open`'s old handle-returning signature (`src/gcrypt.h:236`)
  is not modelled. The tests call the error-returning form, which is the one
  modelled.
- Cipher names (`algo_name`, `map_name`) are left out. So are descriptor
  alias lists and stream-cipher entry points: `FOO` sets them to NULL.
- CipherRegistry.Register: does not promise that an id is never reused
  after unregistration, because the module code that numbers dynamic ids
  is not modelled.
- CipherRegistry.AlgoInfo: the key and block lengths are reported in the
  descriptor's own units; no unit conversion is modelled.
- CipherSession.SetKey: a key the descriptor rejects leaves the model
  session's key unchanged. In C, the rejected key schedule may already
  have been written into the live context.
- Test-driver plumbing (`main`, `die`, library initialisation and version
  checks) is left out.
