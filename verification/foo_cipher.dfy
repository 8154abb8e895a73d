/** The `FOO` cipher the registration test supplies: a 16-byte block
    cipher whose key setup accepts any key and whose encryption and
    decryption both XOR every byte of the block with 0x42. The module ends
    with the test's scenario: register, CBC encrypt, reset, decrypt, list,
    unregister, list again. */
module FooCipher {
  import opened Errors
  import opened Bytes
  import Constants
  import opened BlockModes
  import CipherRegistry
  import CipherSession

  const FooBlocksize: nat := 16
  const FooMask: byte := 0x42

  /** XORs every byte of `b` with `m`, one byte at a time. */
  function XorEach(b: Bytes, m: byte): (r: Bytes)
    ensures |r| == |b|
    ensures forall i :: 0 <= i < |b| ==> r[i] == XorByte(b[i], m)
  {
    if |b| == 0 then [] else [XorByte(b[0], m)] + XorEach(b[1..], m)
  }

  /** The key setup ignores its key and reports success. */
  function FooSetkey(key: Bytes): ErrorCode
  {
    Success
  }

  /** The block transforms ignore the key context. */
  function FooEncrypt(key: Bytes, b: Bytes): (r: Bytes)
    ensures |r| == |b|
  {
    XorEach(b, FooMask)
  }

  function FooDecrypt(key: Bytes, b: Bytes): (r: Bytes)
    ensures |r| == |b|
  {
    XorEach(b, FooMask)
  }

  /** The descriptor: name "FOO", no aliases, block length 16, key length
      0, context size 0. */
  function FooSpec(): (spec: CipherRegistry.CipherSpec)
    ensures spec.name == "FOO" && spec.blocksize == FooBlocksize
    ensures spec.keylen == 0 && spec.contextsize == 0
    ensures forall key :: spec.setkey(key) == Success
    ensures forall key, b :: spec.encrypt(key, b) == FooEncrypt(key, b) && spec.decrypt(key, b) == FooDecrypt(key, b)
  {
    var enc: BlockFn := (key, b) => FooEncrypt(key, b);
    var dec: BlockFn := (key, b) => FooDecrypt(key, b);
    CipherRegistry.CipherSpec("FOO", FooBlocksize, 0, 0, FooSetkey, enc, dec)
  }

  /** Registering the descriptor succeeds exactly when no live cipher is
      already called `FOO`, whatever the case of its letters. */
  lemma FooRegisters(reg: CipherRegistry.Registry)
    requires CipherRegistry.Valid(reg)
    ensures CipherRegistry.Register(reg, FooSpec()).Ok? <==> !CipherRegistry.NameTaken(reg, "FOO")
    ensures CipherRegistry.Register(reg, FooSpec()).Ok? ==>
              var (reg', id) := CipherRegistry.Register(reg, FooSpec()).value;
              id in CipherRegistry.List(reg') && id !in CipherRegistry.List(reg)
  {
  }

  /** Encryption and decryption are one and the same function, each is its
      own inverse, so decryption undoes encryption under every key, and
      every output byte differs from its input byte. */
  lemma FooTransforms(key: Bytes, b: Bytes)
    ensures FooEncrypt(key, b) == FooDecrypt(key, b)
    ensures FooDecrypt(key, FooEncrypt(key, b)) == b
    ensures FooEncrypt(key, FooEncrypt(key, b)) == b
    ensures forall i :: 0 <= i < |b| ==> FooEncrypt(key, b)[i] != b[i]
  {
    var c := FooEncrypt(key, b);
    forall i | 0 <= i < |b| ensures FooDecrypt(key, c)[i] == b[i] && c[i] != b[i] {
      XorByteFacts(b[i], FooMask);
    }
  }

  lemma FooInverts(key: Bytes)
    ensures Inverts(FooSpec().decrypt, FooSpec().encrypt, key, FooBlocksize)
  {
    forall b: Bytes | |b| == FooBlocksize
      ensures FooSpec().decrypt(key, FooSpec().encrypt(key, b)) == b
    {
      FooTransforms(key, b);
    }
  }

  /** The ASCII codes of a string. */
  function Ascii(s: string): (b: Bytes)
    requires forall i :: 0 <= i < |s| ==> s[i] as int < 128
    ensures |b| == |s| && forall i :: 0 <= i < |s| ==> b[i] as int == s[i] as int
  {
    if |s| == 0 then [] else [s[0] as int as byte] + Ascii(s[1..])
  }

  /** The test's 16-byte plaintext buffer: fifteen characters and the
      terminating NUL. */
  function Plain(): (p: Bytes)
    ensures |p| == FooBlocksize
  {
    Ascii("Heil Discordia!") + [0]
  }

  /** With the all-zero chaining value of a fresh session, the first CBC
      block is the plaintext block run through the block transform, so
      under `FOO` every byte of it differs from the plaintext. */
  lemma FirstCbcBlockDiffers(key: Bytes, p: Bytes)
    requires |p| == FooBlocksize
    ensures var c := CbcEncrypt(FooSpec().encrypt, key, Zeros(FooBlocksize), p).0;
            forall i :: 0 <= i < FooBlocksize ==> c[i] != p[i]
  {
    var iv := Zeros(FooBlocksize);
    XorCancels(p, iv);
    assert Xor(p, iv) == p;
    CbcEncryptCons(FooSpec().encrypt, key, iv, p, []);
    assert p + [] == p;
    FooTransforms(key, p);
  }

  /** The session half of the registration test: on a registry where the
      identifier resolves to `FOO`, a CBC session opens, encryption of the
      plaintext succeeds and changes every byte, and after a reset the
      ciphertext decrypts to the plaintext. */
  lemma FooSessionRun(reg: CipherRegistry.Registry, algorithm: int)
    requires CipherRegistry.Valid(reg) && CipherRegistry.Lookup(reg, algorithm) == Ok(FooSpec())
    ensures CipherSession.Open(reg, algorithm, Constants.ModeCode(Constants.Cbc), 0).Ok?
    ensures var h := CipherSession.Open(reg, algorithm, Constants.ModeCode(Constants.Cbc), 0).value;
            var enc := CipherSession.Encrypt(h, |Plain()|, Plain());
            && enc.Ok?
            && (forall i :: 0 <= i < |Plain()| ==> enc.value.1[i] != Plain()[i])
            && CipherSession.Decrypt(CipherSession.Reset(enc.value.0), |enc.value.1|, enc.value.1).Ok?
            && CipherSession.Decrypt(CipherSession.Reset(enc.value.0), |enc.value.1|, enc.value.1).value.1 == Plain()
  {
    var plain := Plain();
    Constants.ModeRoundTrip(Constants.Cbc, 3);
    Constants.FlagsRoundTrip(Constants.CipherFlags(false, false), 0);
    var h := CipherSession.Open(reg, algorithm, 3, 0).value;
    assert h.spec == FooSpec() && h.mode == Constants.Cbc;
    WholeBlocksIsMultiple(|plain|, FooBlocksize);
    assert CipherSession.InputCheck(h, |plain|, plain) == None;
    var enc := CipherSession.Encrypt(h, |plain|, plain);
    assert enc.value.1 == CbcEncrypt(FooSpec().encrypt, h.key, Zeros(FooBlocksize), plain).0;
    FirstCbcBlockDiffers(h.key, plain);
    FooInverts(h.key);
    CipherSession.EncryptResetDecrypt(h, |plain|, plain);
  }

  /** The registration test, step by step. Starting from any registry in
      which the name `FOO` is free: registering the descriptor succeeds; a
      CBC session on it opens; encrypting the plaintext succeeds and
      changes it; after a reset, decrypting gives the plaintext back; the
      new identifier is listed; once unregistered it is not. */
  method CheckRun(reg: CipherRegistry.Registry) returns (encrypted: Bytes, decrypted: Bytes, listedBefore: bool, listedAfter: bool)
    requires CipherRegistry.Valid(reg) && !CipherRegistry.NameTaken(reg, "FOO")
    ensures |encrypted| == |Plain()| && forall i :: 0 <= i < |Plain()| ==> encrypted[i] != Plain()[i]
    ensures decrypted == Plain()
    ensures listedBefore && !listedAfter
  {
    var plain := Plain();
    var registered := CipherRegistry.Register(reg, FooSpec());
    var (reg1, algorithm) := registered.value;

    FooSessionRun(reg1, algorithm);
    var h := CipherSession.Open(reg1, algorithm, Constants.ModeCode(Constants.Cbc), 0).value;
    var enc := CipherSession.Encrypt(h, |plain|, plain).value;
    encrypted := enc.1;
    var h2 := CipherSession.Reset(enc.0);
    decrypted := CipherSession.Decrypt(h2, |encrypted|, encrypted).value.1;

    listedBefore := CipherRegistry.CheckList(reg1, algorithm);

    var reg2 := CipherRegistry.Unregister(reg1, algorithm).value;
    listedAfter := CipherRegistry.CheckList(reg2, algorithm);
  }
}
