/** The cipher module registry: which cipher identifiers are live and the
    descriptor behind each. It starts out holding the built-in ciphers;
    user-supplied descriptors are registered under fresh identifiers and
    can be unregistered again. Enumeration lists the built-ins in ascending
    order followed by registered ciphers in registration order;
    unregistering keeps the order of the rest. */
module CipherRegistry {
  import opened Errors
  import opened Bytes
  import opened Constants
  import opened BlockModes

  /** A cipher implementation as a module supplies it: its name, block and
      key sizes, the size of its key context, and its key-setup and
      per-block entry points. The block transforms are given the key the
      session was set up with. */
  datatype CipherSpec = CipherSpec(
    name: string,
    blocksize: nat,
    keylen: nat,
    contextsize: nat,
    setkey: Bytes -> ErrorCode,
    encrypt: BlockFn,
    decrypt: BlockFn)

  /** Identifiers handed to registered ciphers start here, above every
      built-in identifier. */
  const DynamicIdFloor: int := 600

  /** `order` lists the live identifiers in enumeration order; `modules`
      maps each live identifier to its descriptor. */
  datatype Registry = Registry(order: seq<int>, modules: map<int, CipherSpec>)

  predicate NoDuplicates(s: seq<int>)
  {
    forall i, j :: 0 <= i < j < |s| ==> s[i] != s[j]
  }

  ghost predicate Valid(r: Registry)
  {
    && NoDuplicates(r.order)
    && (forall i :: 0 <= i < |r.order| ==> r.order[i] in r.modules)
    && (forall id :: id in r.modules ==> id in r.order)
    && (forall id :: id in r.modules ==> r.modules[id].blocksize > 0)
    && (forall id :: id in r.modules ==> id in BuiltinCipherIds || id >= DynamicIdFloor)
  }

  /** The registry at start-up: exactly the built-in ciphers, whose
      descriptors are supplied by the caller. */
  function Init(builtins: map<int, CipherSpec>): (r: Registry)
    requires builtins.Keys == BuiltinCipherIds
    requires forall id :: id in builtins ==> builtins[id].blocksize > 0
    ensures Valid(r)
    ensures forall id :: id in List(r) <==> id in BuiltinCipherIds
    ensures forall i, j :: 0 <= i < j < |List(r)| ==> List(r)[i] < List(r)[j]
  {
    var order := [1, 2, 3, 4, 5, 6, 10];
    assert forall id :: id in order <==> id in BuiltinCipherIds;
    assert NoDuplicates(order);
    assert forall i :: 0 <= i < |order| ==> order[i] in builtins;
    assert forall id :: id in builtins ==> id in order;
    assert forall i, j :: 0 <= i < j < |order| ==> order[i] < order[j];
    Registry(order, builtins)
  }

  /** The live identifiers, in enumeration order. */
  function List(r: Registry): seq<int>
  {
    r.order
  }

  function Lookup(r: Registry, id: int): (res: Result<CipherSpec>)
    ensures res.Ok? <==> id in r.modules
    ensures res.Err? ==> res.error == InvCipherAlgo
  {
    if id in r.modules then Ok(r.modules[id]) else Err(InvCipherAlgo)
  }

  /** ASCII case folding, for name comparison. */
  function Upper(c: char): char
  {
    if 'a' <= c <= 'z' then (c as int - 32) as char else c
  }

  predicate SameName(a: string, b: string)
  {
    |a| == |b| && forall i :: 0 <= i < |a| ==> Upper(a[i]) == Upper(b[i])
  }

  predicate NameTaken(r: Registry, name: string)
  {
    exists id :: id in r.modules && SameName(r.modules[id].name, name)
  }

  /** An identifier above every identifier in `ids` and at least the floor. */
  function NextFreeId(ids: seq<int>): (id: int)
    ensures id >= DynamicIdFloor
    ensures forall i :: 0 <= i < |ids| ==> ids[i] < id
  {
    if |ids| == 0 then DynamicIdFloor
    else
      var rest := NextFreeId(ids[1..]);
      if ids[0] >= rest then ids[0] + 1 else rest
  }

  /** Registers a descriptor. It is refused when its name is empty or
      already used by a live cipher (compared without regard to case), or
      when its block length is zero. Otherwise it is stored under a fresh
      identifier, which is returned and appended to the enumeration. */
  function Register(r: Registry, spec: CipherSpec): (res: Result<(Registry, int)>)
    requires Valid(r)
    ensures res.Ok? <==> |spec.name| > 0 && spec.blocksize > 0 && !NameTaken(r, spec.name)
    ensures res.Err? ==> res.error == InvArg
    ensures res.Ok? ==>
      var (r', id) := res.value;
      && Valid(r')
      && id !in List(r) && id !in BuiltinCipherIds
      && List(r') == List(r) + [id]
      && Lookup(r', id) == Ok(spec)
      && (forall x :: x != id ==> Lookup(r', x) == Lookup(r, x))
  {
    if |spec.name| == 0 || spec.blocksize == 0 || NameTaken(r, spec.name) then Err(InvArg)
    else
      var id := NextFreeId(r.order);
      Ok((Registry(r.order + [id], r.modules[id := spec]), id))
  }

  /** The sequence `s` with every occurrence of `x` removed, order kept. */
  function Without(s: seq<int>, x: int): (t: seq<int>)
    ensures forall y :: y in t <==> y in s && y != x
    ensures NoDuplicates(s) ==> NoDuplicates(t)
    ensures x !in s ==> t == s
  {
    if |s| == 0 then []
    else if s[0] == x then Without(s[1..], x)
    else
      var t := Without(s[1..], x);
      NoDuplicatesCons(s[0], s[1..]);
      NoDuplicatesCons(s[0], t);
      [s[0]] + t
  }

  lemma NoDuplicatesCons(a: int, t: seq<int>)
    ensures NoDuplicates([a] + t) ==> a !in t
    ensures NoDuplicates([a] + t) ==> NoDuplicates(t)
    ensures a !in t && NoDuplicates(t) ==> NoDuplicates([a] + t)
  {
    var s := [a] + t;
    if NoDuplicates(s) {
      forall i, j | 0 <= i < j < |t| ensures t[i] != t[j] {
        assert s[i + 1] == t[i] && s[j + 1] == t[j];
      }
    }
    if a in t {
      var k :| 0 <= k < |t| && t[k] == a;
      assert s[0] == s[k + 1];
    }
    if a !in t && NoDuplicates(t) {
      forall i, j | 0 <= i < j < |s| ensures s[i] != s[j] {
        assert s[j] == t[j - 1];
        if i > 0 {
          assert s[i] == t[i - 1];
        }
      }
    }
  }

  /** `a` occurs somewhere before `b` in `s`. */
  predicate Precedes(s: seq<int>, a: int, b: int)
  {
    exists i, j :: 0 <= i < j < |s| && s[i] == a && s[j] == b
  }

  lemma PrecedesCons(c: int, u: seq<int>, a: int, b: int)
    ensures Precedes([c] + u, a, b) <==> (c == a && b in u) || Precedes(u, a, b)
  {
    var s := [c] + u;
    if Precedes(s, a, b) {
      var i, j :| 0 <= i < j < |s| && s[i] == a && s[j] == b;
      assert s[j] == u[j - 1];
      if i > 0 {
        assert s[i] == u[i - 1];
        assert Precedes(u, a, b);
      }
    }
    if c == a && b in u {
      var j :| 0 <= j < |u| && u[j] == b;
      assert s[0] == a && s[j + 1] == b;
    }
    if Precedes(u, a, b) {
      var i, j :| 0 <= i < j < |u| && u[i] == a && u[j] == b;
      assert s[i + 1] == a && s[j + 1] == b;
    }
  }

  /** Removing `x` keeps the relative order of everything else: two
      remaining identifiers appear in the same order as before. */
  lemma {:induction false} WithoutKeepsOrder(s: seq<int>, x: int)
    ensures forall a, b :: Precedes(Without(s, x), a, b) <==> Precedes(s, a, b) && a != x && b != x
  {
    if |s| > 0 {
      var t := Without(s[1..], x);
      WithoutKeepsOrder(s[1..], x);
      assert s == [s[0]] + s[1..];
      forall a, b
        ensures Precedes(Without(s, x), a, b) <==> Precedes(s, a, b) && a != x && b != x
      {
        PrecedesCons(s[0], s[1..], a, b);
        if s[0] != x {
          PrecedesCons(s[0], t, a, b);
        }
      }
    }
  }

  /** Unregisters a live identifier: it leaves the enumeration at once and
      can no longer be looked up; every other cipher stays as it was. An
      identifier that is not live is refused. */
  function Unregister(r: Registry, id: int): (res: Result<Registry>)
    requires Valid(r)
    ensures res.Ok? <==> id in List(r)
    ensures res.Err? ==> res.error == InvCipherAlgo
    ensures res.Ok? ==>
      && Valid(res.value)
      && id !in List(res.value)
      && (forall x :: x in List(res.value) <==> x in List(r) && x != id)
      && (forall a, b :: Precedes(List(res.value), a, b) <==> Precedes(List(r), a, b) && a != id && b != id)
      && Lookup(res.value, id) == Err(InvCipherAlgo)
      && (forall x :: x != id ==> Lookup(res.value, x) == Lookup(r, x))
  {
    if id !in r.modules then Err(InvCipherAlgo)
    else
      var order := Without(r.order, id);
      assert forall i :: 0 <= i < |order| ==> order[i] in order;
      WithoutKeepsOrder(r.order, id);
      Ok(Registry(order, r.modules - {id}))
  }

  /** The test's membership check: scans the enumeration until the
      identifier is found. */
  method CheckList(r: Registry, algorithm: int) returns (found: bool)
    ensures found <==> algorithm in List(r)
  {
    var list := List(r);
    found := false;
    var i := 0;
    while i < |list| && !found
      invariant 0 <= i <= |list|
      invariant found <==> algorithm in list[..i]
    {
      if list[i] == algorithm {
        found := true;
      }
      i := i + 1;
    }
    assert !found ==> list[..i] == list;
  }

  /** Registering then unregistering a descriptor leaves the registry
      listing and resolving exactly what it did before. */
  lemma RegisterUnregister(r: Registry, spec: CipherSpec)
    requires Valid(r)
    requires Register(r, spec).Ok?
    ensures var (r', id) := Register(r, spec).value;
            && id in List(r')
            && Unregister(r', id).Ok?
            && List(Unregister(r', id).value) == List(r)
            && (forall x :: Lookup(Unregister(r', id).value, x) == Lookup(r, x))
  {
    var (r', id) := Register(r, spec).value;
    assert r'.order == r.order + [id];
    WithoutAppended(r.order, id);
  }

  lemma WithoutAppended(s: seq<int>, x: int)
    requires x !in s
    ensures Without(s + [x], x) == s
  {
    if |s| > 0 {
      assert (s + [x])[1..] == s[1..] + [x];
      WithoutAppended(s[1..], x);
    } else {
      assert Without([x], x) == Without([], x);
    }
  }

  /** Identifiers are not reserved once unregistered: a cipher registered
      after another was registered and unregistered again receives the
      identifier the other had. */
  lemma RegisterReusesFreedId(r: Registry, a: CipherSpec, b: CipherSpec)
    requires Valid(r)
    requires Register(r, a).Ok?
    ensures var (r1, id1) := Register(r, a).value;
            var r2 := Unregister(r1, id1).value;
            Register(r2, b).Ok? ==> Register(r2, b).value.1 == id1
  {
    RegisterUnregister(r, a);
  }

  /** A call of the algorithm-information entry point: which cipher, which
      command, and whether the buffer and length pointers are NULL. */
  datatype AlgoInfoCall = AlgoInfoCall(algo: int, what: int, bufferNull: bool, nbytesNull: bool)

  /** The three information aliases: each asks about one cipher with one
      command and passes NULL for both the buffer and the length. */
  function GetAlgoKeylen(a: int): AlgoInfoCall { AlgoInfoCall(a, CtlCode(GetKeylen), true, true) }
  function GetAlgoBlklen(a: int): AlgoInfoCall { AlgoInfoCall(a, CtlCode(GetBlklen), true, true) }
  function TestAlgoCall(a: int): AlgoInfoCall { AlgoInfoCall(a, CtlCode(TestAlgo), true, true) }

  /** The commands the information entry point answers for ciphers. */
  predicate InfoCommand(what: int)
  {
    var cmd := CtlFromCode(what);
    cmd == Some(GetKeylen) || cmd == Some(GetBlklen) || cmd == Some(TestAlgo)
  }

  /** Answers an information request: the key length, the block length,
      or 0 when the cipher is available. */
  function AlgoInfo(r: Registry, call: AlgoInfoCall): (res: Result<int>)
    requires Valid(r)
    ensures res.Ok? <==> InfoCommand(call.what) && call.bufferNull && call.nbytesNull && call.algo in List(r)
    ensures !InfoCommand(call.what) ==> res == Err(InvOp)
    ensures InfoCommand(call.what) && !(call.bufferNull && call.nbytesNull) ==> res == Err(InvArg)
    ensures InfoCommand(call.what) && call.bufferNull && call.nbytesNull && call.algo !in List(r) ==> res == Err(InvCipherAlgo)
  {
    var cmd := CtlFromCode(call.what);
    if !InfoCommand(call.what) then Err(InvOp)
    else if !call.bufferNull || !call.nbytesNull then Err(InvArg)
    else if call.algo !in r.modules then Err(InvCipherAlgo)
    else
      var spec := r.modules[call.algo];
      if cmd == Some(GetKeylen) then Ok(spec.keylen)
      else if cmd == Some(GetBlklen) then Ok(spec.blocksize)
      else Ok(0)
  }

  /** The aliases report the live descriptor's key and block length, and
      `test_algo` succeeds exactly for live identifiers; all three report
      an unknown cipher otherwise. */
  lemma AlgoInfoAliases(r: Registry, a: int)
    requires Valid(r)
    ensures a in List(r) ==> AlgoInfo(r, GetAlgoKeylen(a)) == Ok(r.modules[a].keylen)
    ensures a in List(r) ==> AlgoInfo(r, GetAlgoBlklen(a)) == Ok(r.modules[a].blocksize)
    ensures AlgoInfo(r, TestAlgoCall(a)) == (if a in List(r) then Ok(0) else Err(InvCipherAlgo))
    ensures a !in List(r) ==> AlgoInfo(r, GetAlgoKeylen(a)) == Err(InvCipherAlgo)
    ensures a !in List(r) ==> AlgoInfo(r, GetAlgoBlklen(a)) == Err(InvCipherAlgo)
  {
    CtlRoundTrip(GetKeylen, 6);
    CtlRoundTrip(GetBlklen, 7);
    CtlRoundTrip(TestAlgo, 8);
  }
}
