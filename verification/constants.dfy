/** The enumerations of the interface header: control commands, built-in
    cipher identifiers, cipher modes, cipher flags and public-key algorithm
    identifiers, each with the number the C interface uses for it and a
    reader that takes the number back. */
module Constants {
  import opened Errors

  /** Commands accepted by the `*_ctl` and `*_algo_info` entry points. */
  datatype CtlCmd =
    | SetKey | SetIv | CfbSync | Reset | Finalize
    | GetKeylen | GetBlklen | TestAlgo | IsSecure | GetAsnoid
    | EnableAlgo | DisableAlgo | DumpRandomStats | DumpSecmemStats
    | GetAlgoNpkey | GetAlgoNskey | GetAlgoNsign | GetAlgoNencr

  function CtlCode(c: CtlCmd): nat
  {
    match c
    case SetKey => 1
    case SetIv => 2
    case CfbSync => 3
    case Reset => 4
    case Finalize => 5
    case GetKeylen => 6
    case GetBlklen => 7
    case TestAlgo => 8
    case IsSecure => 9
    case GetAsnoid => 10
    case EnableAlgo => 11
    case DisableAlgo => 12
    case DumpRandomStats => 13
    case DumpSecmemStats => 14
    case GetAlgoNpkey => 15
    case GetAlgoNskey => 16
    case GetAlgoNsign => 17
    case GetAlgoNencr => 18
  }

  /** The commands are numbered 1 through 18 in declaration order. */
  function CtlFromCode(n: int): Option<CtlCmd>
  {
    if n < 1 || n > 18 then None
    else
      var table := [SetKey, SetIv, CfbSync, Reset, Finalize,
                    GetKeylen, GetBlklen, TestAlgo, IsSecure, GetAsnoid,
                    EnableAlgo, DisableAlgo, DumpRandomStats, DumpSecmemStats,
                    GetAlgoNpkey, GetAlgoNskey, GetAlgoNsign, GetAlgoNencr];
      Some(table[n - 1])
  }

  /** A command is read back from its number, and a number that reads back
      is the number of the command read. */
  lemma CtlRoundTrip(c: CtlCmd, n: int)
    ensures CtlFromCode(CtlCode(c)) == Some(c)
    ensures CtlFromCode(n) == Some(c) ==> CtlCode(c) == n
  {
  }

  /** Built-in symmetric cipher identifiers; `CipherNone` (0) names no cipher. */
  datatype CipherAlgo =
    | CipherNone | Idea | TripleDes | Cast5 | Blowfish | SaferSk128 | DesSk | Twofish

  function CipherAlgoCode(a: CipherAlgo): nat
  {
    match a
    case CipherNone => 0
    case Idea => 1
    case TripleDes => 2
    case Cast5 => 3
    case Blowfish => 4
    case SaferSk128 => 5
    case DesSk => 6
    case Twofish => 10
  }

  function CipherAlgoFromCode(n: int): Option<CipherAlgo>
  {
    if n == 0 then Some(CipherNone)
    else if n == 1 then Some(Idea)
    else if n == 2 then Some(TripleDes)
    else if n == 3 then Some(Cast5)
    else if n == 4 then Some(Blowfish)
    else if n == 5 then Some(SaferSk128)
    else if n == 6 then Some(DesSk)
    else if n == 10 then Some(Twofish)
    else None
  }

  /** Each cipher reads back from its number, and a number that reads
      back names the cipher it came from; 7, 8 and 9 name nothing. */
  lemma CipherAlgoRoundTrip(a: CipherAlgo, n: int)
    ensures CipherAlgoFromCode(CipherAlgoCode(a)) == Some(a)
    ensures CipherAlgoFromCode(n) == Some(a) ==> CipherAlgoCode(a) == n
    ensures CipherAlgoFromCode(n).Some? <==> 0 <= n <= 6 || n == 10
  {
  }

  /** The identifiers of the ciphers present before anything is registered. */
  const BuiltinCipherIds: set<int> := {1, 2, 3, 4, 5, 6, 10}

  /** The built-in identifier set is exactly the set of codes of the named
      ciphers, and the "no cipher" code 0 is not one of them. */
  lemma BuiltinCipherIdsAreTheNamedCiphers(n: int)
    ensures n in BuiltinCipherIds <==> exists a: CipherAlgo :: a != CipherNone && CipherAlgoCode(a) == n
    ensures 0 !in BuiltinCipherIds && CipherAlgoCode(CipherNone) == 0
  {
    if n in BuiltinCipherIds {
      var a := if n == 1 then Idea else if n == 2 then TripleDes else if n == 3 then Cast5
               else if n == 4 then Blowfish else if n == 5 then SaferSk128
               else if n == 6 then DesSk else Twofish;
      assert a != CipherNone && CipherAlgoCode(a) == n;
    }
  }

  /** Chaining disciplines a cipher session can be opened with. */
  datatype Mode = ModeNone | Ecb | Cfb | Cbc

  function ModeCode(m: Mode): nat
  {
    match m
    case ModeNone => 0
    case Ecb => 1
    case Cfb => 2
    case Cbc => 3
  }

  function ModeFromCode(n: int): Option<Mode>
  {
    if n == 0 then Some(ModeNone)
    else if n == 1 then Some(Ecb)
    else if n == 2 then Some(Cfb)
    else if n == 3 then Some(Cbc)
    else None
  }

  /** The four modes have the distinct codes 0..3: reading a mode's code
      gives the mode back, and only those four numbers name a mode. */
  lemma ModeRoundTrip(m: Mode, n: int)
    ensures ModeFromCode(ModeCode(m)) == Some(m)
    ensures ModeFromCode(n).Some? <==> 0 <= n <= 3
    ensures ModeFromCode(n) == Some(m) ==> ModeCode(m) == n
  {
  }

  /** Flag bits accepted when a cipher session is opened. */
  const CipherSecure: nat := 1      // allocate in secure memory
  const CipherEnableSync: nat := 2  // enable CFB sync mode

  /** Cipher flags decoded into their two bits. */
  datatype CipherFlags = CipherFlags(secure: bool, enableSync: bool)

  function FlagsBits(f: CipherFlags): nat
  {
    (if f.secure then CipherSecure else 0) + (if f.enableSync then CipherEnableSync else 0)
  }

  /** Reads a flag word; a word with any bit other than the two flags set
      is refused. */
  function FlagsFromBits(n: int): Option<CipherFlags>
  {
    if 0 <= n < 4 then Some(CipherFlags(n % 2 == 1, n / 2 == 1)) else None
  }

  /** The two flags are distinct single bits, so every combination of them
      has its own word and reads back unchanged. */
  lemma FlagsRoundTrip(f: CipherFlags, n: int)
    ensures FlagsFromBits(FlagsBits(f)) == Some(f)
    ensures FlagsFromBits(n) == Some(f) ==> FlagsBits(f) == n
    ensures CipherSecure != CipherEnableSync
    ensures CipherSecure % 2 == 1 && CipherEnableSync / 2 == 1 && CipherEnableSync % 2 == 0
  {
  }

  /** Public-key algorithm identifiers. */
  datatype PkAlgo = Rsa | RsaE | RsaS | ElgE | Dsa | Elg

  function PkAlgoCode(a: PkAlgo): nat
  {
    match a
    case Rsa => 1
    case RsaE => 2
    case RsaS => 3
    case ElgE => 16
    case Dsa => 17
    case Elg => 20
  }

  function PkAlgoFromCode(n: int): Option<PkAlgo>
  {
    if n == 1 then Some(Rsa)
    else if n == 2 then Some(RsaE)
    else if n == 3 then Some(RsaS)
    else if n == 16 then Some(ElgE)
    else if n == 17 then Some(Dsa)
    else if n == 20 then Some(Elg)
    else None
  }

  /** Each public-key algorithm reads back from its number, a number that
      reads back names the algorithm it came from, and only the six
      numbers 1, 2, 3, 16, 17 and 20 name one. */
  lemma PkAlgoRoundTrip(a: PkAlgo, n: int)
    ensures PkAlgoFromCode(PkAlgoCode(a)) == Some(a)
    ensures PkAlgoFromCode(n) == Some(a) ==> PkAlgoCode(a) == n
    ensures PkAlgoFromCode(n).Some? <==> n in {1, 2, 3, 16, 17, 20}
  {
  }
}
