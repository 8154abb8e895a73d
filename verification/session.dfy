/** A cipher session: an open handle on one registered cipher, bound to a
    chaining mode and flags at open time, holding the key, the chaining
    value (`iv`), the previous register contents (`lastiv`) and the count
    of unused CFB keystream bytes. Encryption and decryption run the
    descriptor's block transforms through the session's mode; `Reset`
    returns the chaining state to the one the session was opened with. */
module CipherSession {
  import opened Errors
  import opened Bytes
  import Constants
  import opened BlockModes
  import CipherRegistry

  type CipherSpec = CipherRegistry.CipherSpec

  datatype Session = Session(
    algo: int,
    spec: CipherSpec,
    mode: Constants.Mode,
    flags: Constants.CipherFlags,
    key: Bytes,
    iv: Bytes,
    lastiv: Bytes,
    unused: nat)

  /** The chaining registers are one block long and the unused count lies
      within a block. */
  predicate Valid(s: Session)
  {
    s.spec.blocksize > 0 && |s.iv| == s.spec.blocksize && |s.lastiv| == |s.iv| && s.unused <= |s.iv|
  }

  /** The chaining state of a freshly opened or reset session. */
  ghost predicate IsReset(s: Session)
  {
    Valid(s) && s.iv == Zeros(|s.iv|) && s.lastiv == Zeros(|s.iv|) && s.unused == 0
  }

  /** Two sessions on the same cipher, mode, flags and key. */
  ghost predicate SameSetup(a: Session, b: Session)
  {
    a.algo == b.algo && a.spec == b.spec && a.mode == b.mode && a.flags == b.flags && a.key == b.key
  }

  /** Opens a session on a live cipher with a mode code and a flag word.
      An identifier that is not live is refused as an invalid cipher; an
      unknown mode code or a flag word with other bits set is refused as
      an invalid argument. No key is required before use. */
  function Open(r: CipherRegistry.Registry, algo: int, mode: int, flags: int): (res: Result<Session>)
    requires CipherRegistry.Valid(r)
    ensures res.Ok? <==> algo in CipherRegistry.List(r) && Constants.ModeFromCode(mode).Some? && Constants.FlagsFromBits(flags).Some?
    ensures algo !in CipherRegistry.List(r) ==> res == Err(InvCipherAlgo)
    ensures algo in CipherRegistry.List(r) && res.Err? ==> res.error == InvArg
    ensures res.Ok? ==>
      var s := res.value;
      && IsReset(s) && s.algo == algo && s.key == []
      && CipherRegistry.Lookup(r, algo) == Ok(s.spec)
      && Constants.ModeCode(s.mode) == mode && Constants.FlagsBits(s.flags) == flags
  {
    if algo !in r.modules then Err(InvCipherAlgo)
    else match (Constants.ModeFromCode(mode), Constants.FlagsFromBits(flags))
      case (Some(m), Some(f)) =>
        Constants.ModeRoundTrip(m, mode);
        Constants.FlagsRoundTrip(f, flags);
        var spec := r.modules[algo];
        Ok(Session(algo, spec, m, f, [], Zeros(spec.blocksize), Zeros(spec.blocksize), 0))
      case _ => Err(InvArg)
  }

  function CfbOf(s: Session): (st: CfbState)
    requires Valid(s)
    ensures CfbValid(st) && |st.iv| == s.spec.blocksize
  {
    CfbState(s.iv, s.lastiv, s.unused)
  }

  function WithCfb(s: Session, st: CfbState): (r: Session)
    requires Valid(s) && CfbValid(st) && |st.iv| == |s.iv|
    ensures Valid(r) && SameSetup(s, r) && CfbOf(r) == st
  {
    s.(iv := st.iv, lastiv := st.lastiv, unused := st.unused)
  }

  /** Whether a mode needs its input in whole blocks. */
  predicate BlockAligned(m: Constants.Mode)
  {
    m == Constants.Ecb || m == Constants.Cbc
  }

  /** The checks both directions make before transforming anything: the
      output buffer must be at least as long as the input, and the block
      modes take whole blocks only. */
  function InputCheck(s: Session, outsize: int, input: Bytes): (res: Option<ErrorCode>)
    requires Valid(s)
    ensures res == None <==> outsize >= |input| && (BlockAligned(s.mode) ==> |input| % s.spec.blocksize == 0)
    ensures res != None ==> res.value == (if outsize < |input| then TooShort else InvArg)
  {
    WholeBlocksIsMultiple(|input|, s.spec.blocksize);
    if outsize < |input| then Some(TooShort)
    else if BlockAligned(s.mode) && !WholeBlocks(|input|, s.spec.blocksize) then Some(InvArg)
    else None
  }

  /** Encrypts `input` into an output buffer of `outsize` bytes, returning
      the updated session and the ciphertext. */
  function Encrypt(s: Session, outsize: int, input: Bytes): (res: Result<(Session, Bytes)>)
    requires Valid(s)
    ensures res.Err? <==> InputCheck(s, outsize, input).Some?
    ensures res.Err? ==> res.error == InputCheck(s, outsize, input).value
    ensures res.Ok? ==> Valid(res.value.0) && SameSetup(s, res.value.0) && |res.value.1| == |input|
  {
    var check := InputCheck(s, outsize, input);
    if check.Some? then Err(check.value)
    else
      var n := s.spec.blocksize;
      match s.mode
      case ModeNone => Ok((s, input))
      case Ecb => Ok((s, Ecb(s.spec.encrypt, s.key, n, input)))
      case Cbc =>
        var (c, last) := CbcEncrypt(s.spec.encrypt, s.key, s.iv, input);
        Ok((s.(iv := last), c))
      case Cfb =>
        var (c, st) := CfbEncrypt(s.spec.encrypt, s.key, CfbOf(s), input);
        Ok((WithCfb(s, st), c))
  }

  /** Decrypts `input` into an output buffer of `outsize` bytes, returning
      the updated session and the plaintext. CFB uses the forward block
      transform in this direction too. */
  function Decrypt(s: Session, outsize: int, input: Bytes): (res: Result<(Session, Bytes)>)
    requires Valid(s)
    ensures res.Err? <==> InputCheck(s, outsize, input).Some?
    ensures res.Err? ==> res.error == InputCheck(s, outsize, input).value
    ensures res.Ok? ==> Valid(res.value.0) && SameSetup(s, res.value.0) && |res.value.1| == |input|
  {
    var check := InputCheck(s, outsize, input);
    if check.Some? then Err(check.value)
    else
      var n := s.spec.blocksize;
      match s.mode
      case ModeNone => Ok((s, input))
      case Ecb => Ok((s, Ecb(s.spec.decrypt, s.key, n, input)))
      case Cbc =>
        var (p, last) := CbcDecrypt(s.spec.decrypt, s.key, s.iv, input);
        Ok((s.(iv := last), p))
      case Cfb =>
        var (p, st) := CfbDecrypt(s.spec.encrypt, s.key, CfbOf(s), input);
        Ok((WithCfb(s, st), p))
  }

  /** What the block modes need of a descriptor under a key: decryption
      undoes encryption on every block. CFB and the pass-through mode need
      nothing. */
  ghost predicate ModeInvertible(s: Session)
    requires Valid(s)
  {
    BlockAligned(s.mode) ==> Inverts(s.spec.decrypt, s.spec.encrypt, s.key, s.spec.blocksize)
  }

  /** Decrypting the ciphertext from the state encryption started in gives
      back the plaintext and leaves the session in the very state
      encryption left it in. */
  lemma DecryptInvertsEncrypt(s: Session, outsize: int, p: Bytes)
    requires Valid(s) && ModeInvertible(s)
    requires Encrypt(s, outsize, p).Ok?
    ensures var (s1, c) := Encrypt(s, outsize, p).value;
            Decrypt(s, outsize, c) == Ok((s1, p))
  {
    var n := s.spec.blocksize;
    match s.mode
    case ModeNone =>
    case Ecb =>
      EcbRoundTrip(s.spec.encrypt, s.spec.decrypt, s.key, n, p);
    case Cbc =>
      CbcRoundTrip(s.spec.encrypt, s.spec.decrypt, s.key, s.iv, p);
    case Cfb =>
      CfbRoundTrip(s.spec.encrypt, s.key, CfbOf(s), p);
  }

  /** Returns the chaining state to the one a fresh session has, keeping
      the cipher, mode, flags and key. */
  function Reset(s: Session): (r: Session)
    requires Valid(s)
    ensures IsReset(r) && SameSetup(s, r)
  {
    s.(iv := Zeros(|s.iv|), lastiv := Zeros(|s.iv|), unused := 0)
  }

  /** Reset forgets everything encryption or decryption did: the reset
      session is the reset of the session before the traffic, and a
      session that was in the reset state is restored exactly. */
  lemma ResetForgetsTraffic(s: Session, outsize: int, input: Bytes)
    requires Valid(s)
    ensures Encrypt(s, outsize, input).Ok? ==> Reset(Encrypt(s, outsize, input).value.0) == Reset(s)
    ensures Decrypt(s, outsize, input).Ok? ==> Reset(Decrypt(s, outsize, input).value.0) == Reset(s)
    ensures IsReset(s) ==> Reset(s) == s
  {
  }

  /** The round trip of the registration test: encrypt on a fresh session,
      reset, and decrypt the ciphertext into a buffer of the same size to
      get the plaintext back. */
  lemma EncryptResetDecrypt(s: Session, outsize: int, p: Bytes)
    requires IsReset(s) && ModeInvertible(s)
    requires Encrypt(s, outsize, p).Ok?
    ensures var (s1, c) := Encrypt(s, outsize, p).value;
            && Reset(s1) == s
            && Decrypt(Reset(s1), outsize, c).Ok?
            && Decrypt(Reset(s1), outsize, c).value.1 == p
  {
    ResetForgetsTraffic(s, outsize, p);
    DecryptInvertsEncrypt(s, outsize, p);
  }

  /** Key setup: the descriptor's key schedule judges the key; when it
      succeeds the key is kept for every later block, otherwise its error
      is returned. The chaining state is not touched. */
  function SetKey(s: Session, k: Bytes): (res: Result<Session>)
    requires Valid(s)
    ensures res.Ok? <==> s.spec.setkey(k) == Success
    ensures res.Err? ==> res.error == s.spec.setkey(k)
    ensures res.Ok? ==> Valid(res.value) && res.value.key == k && res.value == s.(key := k)
  {
    var code := s.spec.setkey(k);
    if code == Success then Ok(s.(key := k)) else Err(code)
  }

  /** Loads a chaining value: at most one block of `v` is copied, a short
      `v` is padded with zero bytes, and no keystream remains unused. A
      NULL vector is the empty one. */
  function SetIv(s: Session, v: Bytes): (r: Session)
    requires Valid(s)
    ensures Valid(r) && SameSetup(s, r) && r.lastiv == s.lastiv && r.unused == 0
    ensures forall i :: 0 <= i < |r.iv| ==> r.iv[i] == (if i < |v| then v[i] else 0)
  {
    var n := |s.iv|;
    var m := if |v| < n then |v| else n;
    s.(iv := v[..m] + Zeros(n - m), unused := 0)
  }

  /** The last vector loaded wins, and loading the empty vector gives the
      chaining value of a reset session. */
  lemma SetIvLastWins(s: Session, a: Bytes, b: Bytes)
    requires Valid(s)
    ensures SetIv(SetIv(s, a), b) == SetIv(s, b)
    ensures SetIv(s, []).iv == Reset(s).iv
    ensures |a| == |s.iv| ==> SetIv(s, a).iv == a
  {
    var x := SetIv(SetIv(s, a), b);
    var y := SetIv(s, b);
    assert x.iv == y.iv;
  }

  /** CFB resynchronisation, performed only when the session was opened
      with the sync flag and only in the middle of a register's worth of
      keystream. */
  function Sync(s: Session): (r: Session)
    requires Valid(s)
    ensures Valid(r) && SameSetup(s, r)
    ensures !s.flags.enableSync || s.unused == 0 ==> r == s
    ensures s.flags.enableSync ==> r.unused == 0
  {
    if s.flags.enableSync && s.unused > 0 then WithCfb(s, CfbSync(CfbOf(s))) else s
  }

  /** On a sync-enabled CFB session that starts on a block boundary,
      encrypting up to one block and then synchronising leaves the
      chaining value equal to the last block's worth of ciphertext. */
  lemma SyncRealignsOnCiphertext(s: Session, outsize: int, p: Bytes)
    requires Valid(s) && s.mode == Constants.Cfb && s.flags.enableSync && s.unused == 0
    requires 0 < |p| <= s.spec.blocksize && outsize >= |p|
    ensures Encrypt(s, outsize, p).Ok?
    ensures var (s1, c) := Encrypt(s, outsize, p).value;
            Sync(s1).iv == (s.iv + c)[|p|..]
  {
    CfbSyncRealigns(s.spec.encrypt, s.key, s.iv, s.lastiv, p);
  }

  /** A call of the control entry point: the command number, the buffer
      (`None` for NULL) and the length passed with it. */
  datatype CtlCall = CtlCall(cmd: int, buffer: Option<Bytes>, buflen: nat)

  /** The buffer holds at least `buflen` bytes; a NULL buffer holds none. */
  predicate BufferHolds(call: CtlCall)
  {
    if call.buffer.Some? then call.buflen <= |call.buffer.value| else call.buflen == 0
  }

  function BufferBytes(call: CtlCall): (b: Bytes)
    requires BufferHolds(call)
    ensures |b| == call.buflen
  {
    if call.buffer.Some? then call.buffer.value[..call.buflen] else []
  }

  /** The control aliases of the interface header. */
  function SetKeyCall(k: Bytes, l: nat): CtlCall { CtlCall(Constants.CtlCode(Constants.SetKey), Some(k), l) }
  function SetIvCall(v: Bytes, l: nat): CtlCall { CtlCall(Constants.CtlCode(Constants.SetIv), Some(v), l) }
  function SyncCall(): CtlCall { CtlCall(Constants.CtlCode(Constants.CfbSync), None, 0) }

  /** The control entry point on an open session: key setup, IV setup,
      CFB resynchronisation and reset; every other command is refused as
      an invalid operation. */
  function Ctl(s: Session, call: CtlCall): (res: Result<Session>)
    requires Valid(s) && BufferHolds(call)
    ensures res.Ok? ==> Valid(res.value)
    ensures Constants.CtlFromCode(call.cmd) !in {Some(Constants.SetKey), Some(Constants.SetIv), Some(Constants.CfbSync), Some(Constants.Reset)} ==> res == Err(InvOp)
  {
    var cmd := Constants.CtlFromCode(call.cmd);
    if cmd == Some(Constants.SetKey) then SetKey(s, BufferBytes(call))
    else if cmd == Some(Constants.SetIv) then Ok(SetIv(s, BufferBytes(call)))
    else if cmd == Some(Constants.CfbSync) then Ok(Sync(s))
    else if cmd == Some(Constants.Reset) then Ok(Reset(s))
    else Err(InvOp)
  }

  /** Each alias is the control call with its command number, and does
      what the operation it names does; a command number outside 1..4
      changes nothing and reports an invalid operation. */
  lemma CtlAliases(s: Session, k: Bytes, l: nat, n: int)
    requires Valid(s) && l <= |k|
    ensures Ctl(s, SetKeyCall(k, l)) == SetKey(s, k[..l])
    ensures Ctl(s, SetIvCall(k, l)) == Ok(SetIv(s, k[..l]))
    ensures Ctl(s, SyncCall()) == Ok(Sync(s))
    ensures Ctl(s, CtlCall(Constants.CtlCode(Constants.Reset), None, 0)) == Ok(Reset(s))
    ensures !(1 <= n <= 4) ==> Ctl(s, CtlCall(n, None, 0)) == Err(InvOp)
  {
    Constants.CtlRoundTrip(Constants.SetKey, n);
    Constants.CtlRoundTrip(Constants.SetIv, n);
    Constants.CtlRoundTrip(Constants.CfbSync, n);
    Constants.CtlRoundTrip(Constants.Reset, n);
  }
}
