/** The asymmetric-cryptography layer: a handle bound to one public-key
    algorithm, key pairs whose halves carry a role, and data-level encrypt,
    decrypt, sign and verify that check the key before delegating to the
    algorithm's scheme. The scheme's arithmetic is a parameter; what the
    layer relies on is stated as the contract `Sound`. */
module Ac {
  import opened Errors
  import opened Bytes
  import Constants
  import opened AcData

  datatype KeyRole = SecretKey | PublicKey

  /** A key: the algorithm it belongs to, its role, and its material. */
  datatype Key = Key(algo: int, role: KeyRole, data: DataSet)

  /** A key pair owns one secret and one public key. */
  datatype KeyPair = KeyPair(secret: Key, public: Key)

  predicate PairValid(kp: KeyPair)
  {
    kp.secret.role == SecretKey && kp.public.role == PublicKey && kp.secret.algo == kp.public.algo
  }

  /** The data-level flags; the one flag turns blinding off. */
  datatype DataFlags = DataFlags(noBlinding: bool)

  /** A public-key algorithm's operations on key material and values.
      Key generation takes the key size in bits, the algorithm-specific
      parameter (the public exponent) and a random seed; encryption and
      signing may be randomised and take a seed; encryption and decryption
      are told whether blinding is off. */
  datatype PkScheme = PkScheme(
    name: string,
    generate: (nat, int, nat) -> Result<(DataSet, DataSet)>,
    encrypt: (DataSet, int, bool, nat) -> Result<DataSet>,
    decrypt: (DataSet, DataSet, bool) -> Result<int>,
    sign: (DataSet, int, nat) -> Result<DataSet>,
    verify: (DataSet, int, DataSet) -> ErrorCode)

  /** Values a `bits`-bit key is guaranteed to handle: those below the
      smallest `bits`-bit modulus. */
  predicate InRange(bits: nat, x: int)
  {
    bits > 0 && 0 <= x < Pow2(bits - 1)
  }

  /** The signature `sig` with component `i` increased by one. */
  function Bump(sig: DataSet, i: nat): (r: DataSet)
    requires i < |sig|
    ensures |r| == |sig| && r[i].name == sig[i].name && r[i].value == sig[i].value + 1
    ensures forall j :: 0 <= j < |sig| && j != i ==> r[j] == sig[j]
  {
    sig[i := Entry(sig[i].name, sig[i].value + 1)]
  }

  ghost predicate EncryptRoundTrips(s: PkScheme, sk: DataSet, pk: DataSet, bits: nat)
  {
    forall x, nb, seed ::
      InRange(bits, x) ==> s.encrypt(pk, x, nb, seed).Ok? && s.decrypt(sk, s.encrypt(pk, x, nb, seed).value, nb) == Ok(x)
  }

  ghost predicate SignVerifies(s: PkScheme, sk: DataSet, pk: DataSet, bits: nat)
  {
    forall x, seed :: InRange(bits, x) ==>
      && s.sign(sk, x, seed).Ok?
      && |s.sign(sk, x, seed).value| > 0
      && s.verify(pk, x, s.sign(sk, x, seed).value) == Success
      && (forall i :: 0 <= i < |s.sign(sk, x, seed).value| ==>
            s.verify(pk, x, Bump(s.sign(sk, x, seed).value, i)) == BadSignature)
  }

  /** What the layer requires of a scheme, for every key pair it
      generates: decryption inverts encryption on every value in range,
      whatever the blinding setting and randomness; a signature on a value
      in range is non-empty and verifies; and raising
      any one of its components by one makes verification report a bad
      signature. */
  ghost predicate Sound(s: PkScheme)
  {
    forall bits, e, seed :: s.generate(bits, e, seed).Ok? ==>
      && EncryptRoundTrips(s, s.generate(bits, e, seed).value.0, s.generate(bits, e, seed).value.1, bits)
      && SignVerifies(s, s.generate(bits, e, seed).value.0, s.generate(bits, e, seed).value.1, bits)
  }

  /** An open handle: the algorithm, the handle flags, and its scheme. */
  datatype AcHandle = AcHandle(algo: int, flags: int, scheme: PkScheme)

  /** Opens a handle on a public-key algorithm; `schemes` holds the
      algorithms available. An algorithm that is not available is an
      invalid public-key algorithm. */
  function Open(schemes: map<int, PkScheme>, algo: int, flags: int): (r: Result<AcHandle>)
    ensures r.Ok? <==> algo in schemes
    ensures r.Err? ==> r.error == InvPkAlgo
    ensures r.Ok? ==> r.value.algo == algo && r.value.scheme == schemes[algo] && r.value.flags == flags
  {
    if algo in schemes then Ok(AcHandle(algo, flags, schemes[algo])) else Err(InvPkAlgo)
  }

  /** Generates a key pair of `bits` bits; both halves are stamped with
      the handle's algorithm and their roles. */
  function KeyPairGenerate(h: AcHandle, bits: nat, e: int, seed: nat): (r: Result<KeyPair>)
    ensures r.Ok? <==> h.scheme.generate(bits, e, seed).Ok?
    ensures r.Err? ==> r.error == h.scheme.generate(bits, e, seed).error
    ensures r.Ok? ==> PairValid(r.value) && r.value.secret.algo == h.algo
    ensures r.Ok? ==> (r.value.secret.data, r.value.public.data) == h.scheme.generate(bits, e, seed).value
  {
    var g := h.scheme.generate(bits, e, seed);
    if g.Err? then Err(g.error)
    else Ok(KeyPair(Key(h.algo, SecretKey, g.value.0), Key(h.algo, PublicKey, g.value.1)))
  }

  /** The half of a pair with the given role; the pair keeps both. */
  function KeyPairExtract(kp: KeyPair, role: KeyRole): (k: Key)
    requires PairValid(kp)
    ensures k.role == role && k.algo == kp.secret.algo
    ensures k == kp.secret || k == kp.public
  {
    if role == SecretKey then kp.secret else kp.public
  }

  /** The key checks before any data operation: the key must belong to
      the handle's algorithm and have the role the operation needs. */
  function KeyCheck(h: AcHandle, k: Key, role: KeyRole): (r: Option<ErrorCode>)
    ensures r == None <==> k.algo == h.algo && k.role == role
    ensures k.algo != h.algo ==> r == Some(WrongPkAlgo)
    ensures k.algo == h.algo && k.role != role ==> r == Some(if role == PublicKey then BadPublicKey else BadSecretKey)
  {
    if k.algo != h.algo then Some(WrongPkAlgo)
    else if k.role != role then Some(if role == PublicKey then BadPublicKey else BadSecretKey)
    else None
  }

  /** Encrypts a value with a public key into a set of ciphertext
      components. */
  function DataEncrypt(h: AcHandle, flags: DataFlags, k: Key, x: int, seed: nat): (r: Result<DataSet>)
    ensures k.algo != h.algo ==> r == Err(WrongPkAlgo)
    ensures k.algo == h.algo && k.role == SecretKey ==> r == Err(BadPublicKey)
    ensures k.algo == h.algo && k.role == PublicKey ==> r == h.scheme.encrypt(k.data, x, flags.noBlinding, seed)
  {
    var check := KeyCheck(h, k, PublicKey);
    if check.Some? then Err(check.value) else h.scheme.encrypt(k.data, x, flags.noBlinding, seed)
  }

  /** Decrypts a set of ciphertext components with a secret key. */
  function DataDecrypt(h: AcHandle, flags: DataFlags, k: Key, c: DataSet): (r: Result<int>)
    ensures k.algo != h.algo ==> r == Err(WrongPkAlgo)
    ensures k.algo == h.algo && k.role == PublicKey ==> r == Err(BadSecretKey)
    ensures k.algo == h.algo && k.role == SecretKey ==> r == h.scheme.decrypt(k.data, c, flags.noBlinding)
  {
    var check := KeyCheck(h, k, SecretKey);
    if check.Some? then Err(check.value) else h.scheme.decrypt(k.data, c, flags.noBlinding)
  }

  /** Signs a value with a secret key, giving a set of signature
      components. */
  function DataSign(h: AcHandle, k: Key, x: int, seed: nat): (r: Result<DataSet>)
    ensures k.algo != h.algo ==> r == Err(WrongPkAlgo)
    ensures k.algo == h.algo && k.role == PublicKey ==> r == Err(BadSecretKey)
    ensures k.algo == h.algo && k.role == SecretKey ==> r == h.scheme.sign(k.data, x, seed)
  {
    var check := KeyCheck(h, k, SecretKey);
    if check.Some? then Err(check.value) else h.scheme.sign(k.data, x, seed)
  }

  /** Checks a set of signature components on a value with a public key;
      the scheme's answer is returned as it is. */
  function DataVerify(h: AcHandle, k: Key, x: int, sig: DataSet): (r: ErrorCode)
    ensures k.algo != h.algo ==> r == WrongPkAlgo
    ensures k.algo == h.algo && k.role == SecretKey ==> r == BadPublicKey
    ensures k.algo == h.algo && k.role == PublicKey ==> r == h.scheme.verify(k.data, x, sig)
  {
    var check := KeyCheck(h, k, PublicKey);
    if check.Some? then check.value else h.scheme.verify(k.data, x, sig)
  }

  /** A key of another algorithm is refused by every data operation, and
      that check comes before the role check. */
  lemma ForeignKeyRefused(h: AcHandle, k: Key, flags: DataFlags, x: int, c: DataSet, seed: nat)
    requires k.algo != h.algo
    ensures DataEncrypt(h, flags, k, x, seed) == Err(WrongPkAlgo)
    ensures DataDecrypt(h, flags, k, c) == Err(WrongPkAlgo)
    ensures DataSign(h, k, x, seed) == Err(WrongPkAlgo)
    ensures DataVerify(h, k, x, c) == WrongPkAlgo
  {
  }

  /** For a key pair generated through a handle on a sound scheme, the
      data operations keep the scheme's promises: decrypting with the
      secret half what was encrypted with the public half gives the value
      back, a signature by the secret half verifies under the public half,
      and bumping any of its components makes verification fail as a bad
      signature. With the halves swapped, each operation refuses the key. */
  lemma GeneratedPairWorks(h: AcHandle, bits: nat, e: int, gseed: nat, flags: DataFlags, x: int, seed: nat)
    requires Sound(h.scheme)
    requires KeyPairGenerate(h, bits, e, gseed).Ok? && InRange(bits, x)
    ensures var kp := KeyPairGenerate(h, bits, e, gseed).value;
            var sk := KeyPairExtract(kp, SecretKey);
            var pk := KeyPairExtract(kp, PublicKey);
            && DataEncrypt(h, flags, pk, x, seed).Ok?
            && DataDecrypt(h, flags, sk, DataEncrypt(h, flags, pk, x, seed).value) == Ok(x)
            && DataSign(h, sk, x, seed).Ok?
            && |DataSign(h, sk, x, seed).value| > 0
            && DataVerify(h, pk, x, DataSign(h, sk, x, seed).value) == Success
            && (forall i :: 0 <= i < |DataSign(h, sk, x, seed).value| ==>
                  DataVerify(h, pk, x, Bump(DataSign(h, sk, x, seed).value, i)) == BadSignature)
            && DataEncrypt(h, flags, sk, x, seed) == Err(BadPublicKey)
            && DataDecrypt(h, flags, pk, DataEncrypt(h, flags, pk, x, seed).value) == Err(BadSecretKey)
            && DataSign(h, pk, x, seed) == Err(BadSecretKey)
            && DataVerify(h, sk, x, DataSign(h, sk, x, seed).value) == BadPublicKey
  {
    var g := h.scheme.generate(bits, e, gseed);
    assert EncryptRoundTrips(h.scheme, g.value.0, g.value.1, bits);
    assert SignVerifies(h.scheme, g.value.0, g.value.1, bits);
  }

  /** A deterministic scheme that meets the contract: the ciphertext and
      the signature are the value itself under a fixed label. It shows
      that `Sound` can be met. */
  function ToyScheme(): PkScheme
  {
    PkScheme(
      "toy",
      (bits: nat, e: int, seed: nat) => Ok(([], [])),
      (pk: DataSet, x: int, nb: bool, seed: nat) => Ok([Entry("a", x)]),
      (sk: DataSet, c: DataSet, nb: bool) => if |c| == 1 && c[0].name == "a" then Ok(c[0].value) else Err(BadMpi),
      (sk: DataSet, x: int, seed: nat) => Ok([Entry("s", x)]),
      (pk: DataSet, x: int, sig: DataSet) => if sig == [Entry("s", x)] then Success else BadSignature)
  }

  lemma ToySchemeIsSound()
    ensures Sound(ToyScheme())
  {
    var s := ToyScheme();
    forall bits, e, seed | s.generate(bits, e, seed).Ok?
      ensures EncryptRoundTrips(s, [], [], bits) && SignVerifies(s, [], [], bits)
    {
      forall x, seed2 | InRange(bits, x)
        ensures forall i :: 0 <= i < |s.sign([], x, seed2).value| ==>
                  s.verify([], x, Bump(s.sign([], x, seed2).value, i)) == BadSignature
      {
        var sig := s.sign([], x, seed2).value;
        assert sig == [Entry("s", x)];
        assert Bump(sig, 0) != sig by {
          assert Bump(sig, 0)[0].value != sig[0].value;
        }
      }
    }
  }

  /** The test's value, 0x4223. */
  const TestValue: int := 0x4223

  /** The public-key test, step by step, against any available RSA scheme
      that meets the contract and generates a 1024-bit key pair with
      public exponent 1: encryption without blinding and decryption give
      the value back; a signature survives being copied, its source
      destroyed, copied back and the intermediate destroyed, and still
      verifies; a fresh signature whose first component is read, raised
      by one and written back under its own label no longer verifies. */
  method CheckRun(schemes: map<int, PkScheme>, gseed: nat, eseed: nat, sseed1: nat, sseed2: nat)
      returns (x2: int, verified: ErrorCode, tampered: ErrorCode)
    requires Constants.PkAlgoCode(Constants.Rsa) in schemes
    requires Sound(schemes[Constants.PkAlgoCode(Constants.Rsa)])
    requires schemes[Constants.PkAlgoCode(Constants.Rsa)].generate(1024, 1, gseed).Ok?
    ensures x2 == TestValue
    ensures verified == Success
    ensures tampered == BadSignature
  {
    var h := Open(schemes, Constants.PkAlgoCode(Constants.Rsa), 0).value;
    var kp := KeyPairGenerate(h, 1024, 1, gseed).value;
    var sk := KeyPairExtract(kp, SecretKey);
    var pk := KeyPairExtract(kp, PublicKey);
    var flags := DataFlags(true);
    TestValueInRange();

    // encrypt without blinding, decrypt, compare
    assert DataEncrypt(h, flags, pk, TestValue, eseed).Ok?
        && DataDecrypt(h, flags, sk, DataEncrypt(h, flags, pk, TestValue, eseed).value) == Ok(TestValue) by {
      GeneratedPairWorks(h, 1024, 1, gseed, flags, TestValue, eseed);
    }
    var cipher := DataEncrypt(h, flags, pk, TestValue, eseed).value;
    x2 := DataDecrypt(h, flags, sk, cipher).value;

    // sign, copy, destroy the source, copy back, destroy the copy, verify
    assert DataSign(h, sk, TestValue, sseed1).Ok?
        && DataVerify(h, pk, TestValue, DataSign(h, sk, TestValue, sseed1).value) == Success by {
      GeneratedPairWorks(h, 1024, 1, gseed, flags, TestValue, sseed1);
    }
    var store := EmptyStore();
    var (store1, data) := New(store, DataSign(h, sk, TestValue, sseed1).value);
    var (store2, data2) := Copy(store1, data).value;
    var store3 := Destroy(store2, data).value;
    var (store4, data3) := Copy(store3, data2).value;
    var store5 := Destroy(store4, data2).value;
    CopyDestroyCopyDestroy(store1, data);
    verified := DataVerify(h, pk, TestValue, store5.sets[data3]);
    var store6 := Destroy(store5, data3).value;

    // sign again, raise the first component by one, verify
    assert DataSign(h, sk, TestValue, sseed2).Ok? && |DataSign(h, sk, TestValue, sseed2).value| > 0
        && DataVerify(h, pk, TestValue, Bump(DataSign(h, sk, TestValue, sseed2).value, 0)) == BadSignature by {
      GeneratedPairWorks(h, 1024, 1, gseed, flags, TestValue, sseed2);
    }
    var signature := DataSign(h, sk, TestValue, sseed2).value;
    var (store7, sig) := New(store6, signature);
    var first := GetIndex(store7.sets[sig], 0).value;
    var store8 := SetIn(store7, sig, first.name, first.value + 1).value;
    GetIndexThenSet(signature, 0, first.value + 1);
    assert store8.sets[sig] == Bump(signature, 0);
    tampered := DataVerify(h, pk, TestValue, store8.sets[sig]);
  }

  /** 0x4223 is below 2^15 and so within range of a 1024-bit key. */
  lemma TestValueInRange()
    ensures InRange(1024, TestValue)
  {
    var k := 1023;
    Pow2AtLeast(k, 15);
    assert Pow2(15) == 32768;
  }

  /** Powers of two grow with the exponent. */
  lemma {:induction false} Pow2AtLeast(k: nat, j: nat)
    requires j <= k
    ensures Pow2(j) <= Pow2(k)
    decreases k
  {
    if j < k {
      Pow2AtLeast(k - 1, j);
    }
  }
}
