/** Modes of operation over a pluggable block transform, following
    sections 6.1 (ECB), 6.2 (CBC) and 6.3 (CFB) of NIST SP 800-38A. The
    transform is whatever a cipher descriptor supplies; the modes only
    chain it. Blocks are byte sequences whose length is the cipher's block
    length, and the chaining value always has that length too. */
module BlockModes {

  import opened Bytes

  /** A descriptor's per-block entry point, given the key it was set up
      with: it writes exactly as many bytes as it reads. */
  type BlockFn = f: (Bytes, Bytes) -> Bytes | forall key, b :: |f(key, b)| == |b|
    witness (key: Bytes, b: Bytes) => b

  /** `d` undoes `e` on every block of length `n` under `key`. */
  ghost predicate Inverts(d: BlockFn, e: BlockFn, key: Bytes, n: nat)
  {
    forall b: Bytes :: |b| == n ==> d(key, e(key, b)) == b
  }

  /** `len` bytes make up a whole number of `n`-byte blocks. */
  predicate WholeBlocks(len: nat, n: nat)
    requires n > 0
    decreases len
  {
    if len < n then len == 0 else WholeBlocks(len - n, n)
  }

  lemma MulAtLeast(n: int, k: int)
    requires n > 0 && k >= 1
    ensures n * k >= n
    decreases k
  {
    if k > 1 {
      MulAtLeast(n, k - 1);
      assert n * k == n * (k - 1) + n;
    }
  }

  lemma DivModUnique(x: int, n: int, q: int, r: int)
    requires n > 0 && 0 <= r < n && x == n * q + r
    ensures x % n == r
  {
    var q0 := x / n;
    var r0 := x % n;
    assert x == n * q0 + r0;
    assert n * (q - q0) == r0 - r;
    if q - q0 >= 1 {
      MulAtLeast(n, q - q0);
    } else if q0 - q >= 1 {
      MulAtLeast(n, q0 - q);
    }
  }

  /** The block-multiple test the C code writes with `%` is `WholeBlocks`. */
  lemma {:induction false} WholeBlocksIsMultiple(len: nat, n: nat)
    requires n > 0
    ensures WholeBlocks(len, n) <==> len % n == 0
    decreases len
  {
    if len < n {
      DivModUnique(len, n, 0, len);
    } else {
      WholeBlocksIsMultiple(len - n, n);
      var q := (len - n) / n;
      var r := (len - n) % n;
      assert len - n == n * q + r;
      assert len == n * (q + 1) + r;
      DivModUnique(len, n, q + 1, r);
    }
  }

  /** Electronic codebook: each block transformed on its own. */
  function Ecb(f: BlockFn, key: Bytes, n: nat, input: Bytes): (r: Bytes)
    requires n > 0 && WholeBlocks(|input|, n)
    ensures |r| == |input|
    decreases |input|
  {
    if |input| == 0 then [] else f(key, input[..n]) + Ecb(f, key, n, input[n..])
  }

  /** Cipher block chaining, forward direction: each plaintext block is
      XORed with the previous ciphertext block (the chaining value `iv` for
      the first) and then enciphered. Returns the ciphertext and the new
      chaining value, the last ciphertext block. */
  function CbcEncrypt(e: BlockFn, key: Bytes, iv: Bytes, p: Bytes): (r: (Bytes, Bytes))
    requires |iv| > 0 && WholeBlocks(|p|, |iv|)
    ensures |r.0| == |p| && |r.1| == |iv|
    ensures |p| == 0 ==> r.1 == iv
    ensures |p| > 0 ==> r.1 == r.0[|p| - |iv|..]
    decreases |p|
  {
    if |p| == 0 then ([], iv)
    else
      var n := |iv|;
      var c := e(key, Xor(p[..n], iv));
      var rest := CbcEncrypt(e, key, c, p[n..]);
      assert |p| - n > 0 ==> (c + rest.0)[|p| - n..] == rest.0[|p| - n - n..];
      (c + rest.0, rest.1)
  }

  /** Cipher block chaining, inverse direction: each ciphertext block is
      deciphered and XORed with the previous ciphertext block. */
  function CbcDecrypt(d: BlockFn, key: Bytes, iv: Bytes, c: Bytes): (r: (Bytes, Bytes))
    requires |iv| > 0 && WholeBlocks(|c|, |iv|)
    ensures |r.0| == |c| && |r.1| == |iv|
    ensures |c| == 0 ==> r.1 == iv
    ensures |c| > 0 ==> r.1 == c[|c| - |iv|..]
    decreases |c|
  {
    if |c| == 0 then ([], iv)
    else
      var n := |iv|;
      var blk := c[..n];
      var rest := CbcDecrypt(d, key, blk, c[n..]);
      (Xor(d(key, blk), iv) + rest.0, rest.1)
  }

  /** ECB decryption with the inverse transform recovers the plaintext. */
  lemma {:induction false} EcbRoundTrip(e: BlockFn, d: BlockFn, key: Bytes, n: nat, p: Bytes)
    requires n > 0 && WholeBlocks(|p|, n)
    requires Inverts(d, e, key, n)
    ensures Ecb(d, key, n, Ecb(e, key, n, p)) == p
    decreases |p|
  {
    if |p| > 0 {
      var c := Ecb(e, key, n, p);
      EcbRoundTrip(e, d, key, n, p[n..]);
      assert c[..n] == e(key, p[..n]);
      assert c[n..] == Ecb(e, key, n, p[n..]);
      assert p == p[..n] + p[n..];
    }
  }

  /** CBC over a first block followed by more blocks, one step unfolded. */
  lemma CbcEncryptCons(e: BlockFn, key: Bytes, iv: Bytes, first: Bytes, more: Bytes)
    requires |iv| > 0 && |first| == |iv| && WholeBlocks(|more|, |iv|)
    ensures var c := e(key, Xor(first, iv));
            CbcEncrypt(e, key, iv, first + more)
            == (c + CbcEncrypt(e, key, c, more).0, CbcEncrypt(e, key, c, more).1)
  {
    var p := first + more;
    assert p[..|iv|] == first && p[|iv|..] == more;
  }

  lemma CbcDecryptCons(d: BlockFn, key: Bytes, iv: Bytes, first: Bytes, more: Bytes)
    requires |iv| > 0 && |first| == |iv| && WholeBlocks(|more|, |iv|)
    ensures CbcDecrypt(d, key, iv, first + more)
            == (Xor(d(key, first), iv) + CbcDecrypt(d, key, first, more).0, CbcDecrypt(d, key, first, more).1)
  {
    var c := first + more;
    assert c[..|iv|] == first && c[|iv|..] == more;
  }

  /** CBC decryption from the same chaining value, with a transform that
      undoes the encryption transform, returns exactly the plaintext and
      leaves the same chaining value as encryption did. */
  lemma {:induction false} CbcRoundTrip(e: BlockFn, d: BlockFn, key: Bytes, iv: Bytes, p: Bytes)
    requires |iv| > 0 && WholeBlocks(|p|, |iv|)
    requires Inverts(d, e, key, |iv|)
    ensures CbcDecrypt(d, key, iv, CbcEncrypt(e, key, iv, p).0) == (p, CbcEncrypt(e, key, iv, p).1)
    decreases |p|
  {
    if |p| > 0 {
      var n := |iv|;
      var first, more := p[..n], p[n..];
      assert p == first + more;
      var blk := e(key, Xor(first, iv));
      var rest := CbcEncrypt(e, key, blk, more);
      CbcEncryptCons(e, key, iv, first, more);
      CbcRoundTrip(e, d, key, blk, more);
      CbcDecryptCons(d, key, iv, blk, rest.0);
      XorCancels(first, iv);
    }
  }

  /** The other direction: CBC encryption undoes CBC decryption when the
      encryption transform undoes the decryption transform. */
  lemma {:induction false} CbcRoundTripReverse(e: BlockFn, d: BlockFn, key: Bytes, iv: Bytes, c: Bytes)
    requires |iv| > 0 && WholeBlocks(|c|, |iv|)
    requires Inverts(e, d, key, |iv|)
    ensures CbcEncrypt(e, key, iv, CbcDecrypt(d, key, iv, c).0) == (c, CbcDecrypt(d, key, iv, c).1)
    decreases |c|
  {
    if |c| > 0 {
      var n := |iv|;
      var first, more := c[..n], c[n..];
      assert c == first + more;
      var x := Xor(d(key, first), iv);
      var rest := CbcDecrypt(d, key, first, more);
      CbcDecryptCons(d, key, iv, first, more);
      CbcRoundTripReverse(e, d, key, first, more);
      CbcEncryptCons(e, key, iv, x, rest.0);
      XorCancels(d(key, first), iv);
    }
  }

  /** Block `k` of `s` for block length `n`. */
  function Block(s: Bytes, n: nat, k: nat): (b: Bytes)
    requires k * n + n <= |s|
    ensures |b| == n
  {
    s[k * n..k * n + n]
  }

  /** Dropping the first block shifts every later block down by one. */
  lemma BlockShift(s: Bytes, n: nat, k: nat)
    requires 0 < k && k * n + n <= |s| && n <= |s|
    ensures (k - 1) * n + n <= |s[n..]|
    ensures Block(s[n..], n, k - 1) == Block(s, n, k)
  {
    assert (k - 1) * n + n == k * n;
  }

  /** ECB as section 6.1 of NIST SP 800-38A defines it: output block `k`
      is the transform of input block `k`, for every block. */
  lemma {:induction false} EcbBlocks(f: BlockFn, key: Bytes, n: nat, input: Bytes, k: nat)
    requires n > 0 && WholeBlocks(|input|, n) && k * n + n <= |input|
    ensures Block(Ecb(f, key, n, input), n, k) == f(key, Block(input, n, k))
    decreases k
  {
    var r := Ecb(f, key, n, input);
    var rest := Ecb(f, key, n, input[n..]);
    assert r == f(key, input[..n]) + rest;
    if k > 0 {
      BlockShift(input, n, k);
      BlockShift(r, n, k);
      EcbBlocks(f, key, n, input[n..], k - 1);
      assert r[n..] == rest;
    }
  }

  /** The chaining input of CBC block `k`: the chaining value for the
      first block, the ciphertext block before it for every later one. */
  function ChainIn(iv: Bytes, c: Bytes, k: nat): (b: Bytes)
    requires k * |iv| <= |c|
    ensures |b| == |iv|
  {
    if k == 0 then iv else Block(c, |iv|, k - 1)
  }

  lemma ChainInShift(iv: Bytes, c: Bytes, k: nat)
    requires 1 < k && k * |iv| <= |c|
    ensures (k - 1) * |iv| <= |c[|iv|..]|
    ensures ChainIn(c[..|iv|], c[|iv|..], k - 1) == ChainIn(iv, c, k)
  {
    var n := |iv|;
    assert (k - 1) * n == (k - 2) * n + n;
    assert k * n == (k - 1) * n + n;
    BlockShift(c, n, k - 1);
  }

  /** CBC encryption as section 6.2 of NIST SP 800-38A defines it:
      ciphertext block `k` is the transform of plaintext block `k` XORed
      with the chaining input, the previous ciphertext block or the
      chaining value. */
  lemma {:induction false} CbcEncryptBlocks(e: BlockFn, key: Bytes, iv: Bytes, p: Bytes, k: nat)
    requires |iv| > 0 && WholeBlocks(|p|, |iv|) && k * |iv| + |iv| <= |p|
    ensures var c := CbcEncrypt(e, key, iv, p).0;
            Block(c, |iv|, k) == e(key, Xor(Block(p, |iv|, k), ChainIn(iv, c, k)))
    decreases k
  {
    var n := |iv|;
    var c := CbcEncrypt(e, key, iv, p).0;
    var c0 := e(key, Xor(p[..n], iv));
    var rest := CbcEncrypt(e, key, c0, p[n..]);
    assert c == c0 + rest.0;
    assert c[..n] == c0 && c[n..] == rest.0;
    if k > 0 {
      BlockShift(p, n, k);
      BlockShift(c, n, k);
      CbcEncryptBlocks(e, key, c0, p[n..], k - 1);
      if k > 1 {
        ChainInShift(iv, c, k);
      }
    }
  }

  /** CBC decryption as section 6.2 of NIST SP 800-38A defines it:
      plaintext block `k` is the inverse transform of ciphertext block `k`
      XORed with the previous ciphertext block or the chaining value. */
  lemma {:induction false} CbcDecryptBlocks(d: BlockFn, key: Bytes, iv: Bytes, c: Bytes, k: nat)
    requires |iv| > 0 && WholeBlocks(|c|, |iv|) && k * |iv| + |iv| <= |c|
    ensures Block(CbcDecrypt(d, key, iv, c).0, |iv|, k) == Xor(d(key, Block(c, |iv|, k)), ChainIn(iv, c, k))
    decreases k
  {
    var n := |iv|;
    var p := CbcDecrypt(d, key, iv, c).0;
    var rest := CbcDecrypt(d, key, c[..n], c[n..]);
    assert p == Xor(d(key, c[..n]), iv) + rest.0;
    assert p[n..] == rest.0;
    if k > 0 {
      BlockShift(c, n, k);
      BlockShift(p, n, k);
      CbcDecryptBlocks(d, key, c[..n], c[n..], k - 1);
      if k > 1 {
        ChainInShift(iv, c, k);
      }
    }
  }

  /** The feedback state of a CFB session: the feedback register `iv`,
      the register's previous contents `lastiv`, and how many keystream
      bytes of the register are still unused. */
  datatype CfbState = CfbState(iv: Bytes, lastiv: Bytes, unused: nat)

  predicate CfbValid(st: CfbState)
  {
    |st.iv| > 0 && |st.lastiv| == |st.iv| && st.unused <= |st.iv|
  }

  /** Makes a keystream byte available: when the register is used up, the
      register is enciphered (its old contents kept as `lastiv`). */
  function CfbRefill(e: BlockFn, key: Bytes, st: CfbState): (r: CfbState)
    requires CfbValid(st)
    ensures CfbValid(r) && |r.iv| == |st.iv| && r.unused > 0
  {
    if st.unused == 0 then CfbState(e(key, st.iv), st.iv, |st.iv|) else st
  }

  /** The next unused keystream byte of a refilled register. */
  function CfbKeyByte(s1: CfbState): byte
    requires CfbValid(s1) && s1.unused > 0
  {
    s1.iv[|s1.iv| - s1.unused]
  }

  /** Feeds a ciphertext byte back: it takes the place of the keystream
      byte just used, which is no longer unused. */
  function CfbFeed(s1: CfbState, c: byte): (r: CfbState)
    requires CfbValid(s1) && s1.unused > 0
    ensures CfbValid(r) && |r.iv| == |s1.iv| && r.unused == s1.unused - 1
  {
    CfbState(s1.iv[|s1.iv| - s1.unused := c], s1.lastiv, s1.unused - 1)
  }

  /** CFB with full-block feedback run as a byte stream: each input byte is
      XORed with the next unused register byte, and the ciphertext byte
      takes that byte's place in the register. Input of any length is
      accepted; a partial block leaves unused keystream for the next call. */
  function CfbEncrypt(e: BlockFn, key: Bytes, st: CfbState, p: Bytes): (r: (Bytes, CfbState))
    requires CfbValid(st)
    ensures |r.0| == |p| && CfbValid(r.1) && |r.1.iv| == |st.iv|
    decreases |p|
  {
    if |p| == 0 then ([], st)
    else
      var s1 := CfbRefill(e, key, st);
      var c := XorByte(CfbKeyByte(s1), p[0]);
      var rest := CfbEncrypt(e, key, CfbFeed(s1, c), p[1..]);
      ([c] + rest.0, rest.1)
  }

  /** CFB in the inverse direction; it uses the same forward transform, and
      the register again receives the ciphertext byte. */
  function CfbDecrypt(e: BlockFn, key: Bytes, st: CfbState, c: Bytes): (r: (Bytes, CfbState))
    requires CfbValid(st)
    ensures |r.0| == |c| && CfbValid(r.1) && |r.1.iv| == |st.iv|
    decreases |c|
  {
    if |c| == 0 then ([], st)
    else
      var s1 := CfbRefill(e, key, st);
      var p := XorByte(CfbKeyByte(s1), c[0]);
      var rest := CfbDecrypt(e, key, CfbFeed(s1, c[0]), c[1..]);
      ([p] + rest.0, rest.1)
  }

  /** Decrypting a stream that starts with byte `c0` takes one byte step
      and continues from the fed-back state. */
  lemma CfbDecryptCons(e: BlockFn, key: Bytes, st: CfbState, c0: byte, cs: Bytes)
    requires CfbValid(st)
    ensures CfbDecrypt(e, key, st, [c0] + cs).0
            == [XorByte(CfbKeyByte(CfbRefill(e, key, st)), c0)] + CfbDecrypt(e, key, CfbFeed(CfbRefill(e, key, st), c0), cs).0
    ensures CfbDecrypt(e, key, st, [c0] + cs).1
            == CfbDecrypt(e, key, CfbFeed(CfbRefill(e, key, st), c0), cs).1
  {
    var c := [c0] + cs;
    assert c[0] == c0 && c[1..] == cs;
  }

  /** CFB decryption from the same feedback state recovers the plaintext and
      ends in the same feedback state, for any transform whatsoever. */
  lemma {:induction false} CfbRoundTrip(e: BlockFn, key: Bytes, st: CfbState, p: Bytes)
    requires CfbValid(st)
    ensures CfbDecrypt(e, key, st, CfbEncrypt(e, key, st, p).0) == (p, CfbEncrypt(e, key, st, p).1)
    decreases |p|
  {
    if |p| > 0 {
      var s1 := CfbRefill(e, key, st);
      var c := XorByte(CfbKeyByte(s1), p[0]);
      var s2 := CfbFeed(s1, c);
      var rest := CfbEncrypt(e, key, s2, p[1..]);
      assert CfbEncrypt(e, key, st, p) == ([c] + rest.0, rest.1);
      CfbRoundTrip(e, key, s2, p[1..]);
      CfbDecryptCons(e, key, st, c, rest.0);
      XorByteFacts(CfbKeyByte(s1), p[0]);
      assert p == [p[0]] + p[1..];
    }
  }

  /** CFB is a byte stream: encrypting `p` and then `q` from where `p`
      left the state gives the same bytes and the same state as encrypting
      `p + q` in one call. */
  lemma {:induction false} CfbEncryptSplit(e: BlockFn, key: Bytes, st: CfbState, p: Bytes, q: Bytes)
    requires CfbValid(st)
    ensures var (c1, st1) := CfbEncrypt(e, key, st, p);
            var (c2, st2) := CfbEncrypt(e, key, st1, q);
            CfbEncrypt(e, key, st, p + q) == (c1 + c2, st2)
    decreases |p|
  {
    if |p| == 0 {
      assert p + q == q;
      assert CfbEncrypt(e, key, st, p) == ([], st);
      assert [] + CfbEncrypt(e, key, st, q).0 == CfbEncrypt(e, key, st, q).0;
    } else {
      var s1 := CfbRefill(e, key, st);
      var c := XorByte(CfbKeyByte(s1), p[0]);
      assert (p + q)[0] == p[0] && (p + q)[1..] == p[1..] + q;
      var s2 := CfbFeed(s1, c);
      CfbEncryptSplit(e, key, s2, p[1..], q);
      var (r1, t1) := CfbEncrypt(e, key, s2, p[1..]);
      var (r2, t2) := CfbEncrypt(e, key, t1, q);
      assert CfbEncrypt(e, key, st, p) == ([c] + r1, t1);
      assert CfbEncrypt(e, key, st, p + q) == ([c] + (r1 + r2), t2);
      assert [c] + (r1 + r2) == ([c] + r1) + r2;
    }
  }

  /** The same holds for decryption. */
  lemma {:induction false} CfbDecryptSplit(e: BlockFn, key: Bytes, st: CfbState, c: Bytes, d: Bytes)
    requires CfbValid(st)
    ensures var (p1, st1) := CfbDecrypt(e, key, st, c);
            var (p2, st2) := CfbDecrypt(e, key, st1, d);
            CfbDecrypt(e, key, st, c + d) == (p1 + p2, st2)
    decreases |c|
  {
    if |c| == 0 {
      assert c + d == d;
      assert CfbDecrypt(e, key, st, c) == ([], st);
      assert [] + CfbDecrypt(e, key, st, d).0 == CfbDecrypt(e, key, st, d).0;
    } else {
      var s1 := CfbRefill(e, key, st);
      assert (c + d)[0] == c[0] && (c + d)[1..] == c[1..] + d;
      var x := XorByte(CfbKeyByte(s1), c[0]);
      var s2 := CfbFeed(s1, c[0]);
      CfbDecryptSplit(e, key, s2, c[1..], d);
      var (r1, t1) := CfbDecrypt(e, key, s2, c[1..]);
      var (r2, t2) := CfbDecrypt(e, key, t1, d);
      assert CfbDecrypt(e, key, st, c) == ([x] + r1, t1);
      assert CfbDecrypt(e, key, st, c + d) == ([x] + (r1 + r2), t2);
      assert [x] + (r1 + r2) == ([x] + r1) + r2;
    }
  }

  /** CFB resynchronisation: the unused part of the register is discarded
      and the register is realigned so that it ends with the ciphertext
      bytes of the current block, preceded by the tail of the previous
      register contents. */
  function CfbSync(st: CfbState): (r: CfbState)
    requires CfbValid(st)
    ensures CfbValid(r) && |r.iv| == |st.iv| && r.unused == 0
    ensures r.lastiv == st.lastiv
    ensures st.unused == 0 ==> r == st
    ensures r.iv[..st.unused] == st.lastiv[|st.iv| - st.unused..]
    ensures r.iv[st.unused..] == st.iv[..|st.iv| - st.unused]
  {
    if st.unused == 0 then st
    else
      var n := |st.iv|;
      CfbState(st.lastiv[n - st.unused..] + st.iv[..n - st.unused], st.lastiv, 0)
  }

  /** Within one register's worth of keystream, encryption writes the
      ciphertext over the used keystream bytes, in order, and leaves the
      rest of the register and its previous contents alone. */
  lemma {:induction false} CfbWithinBlock(e: BlockFn, key: Bytes, st: CfbState, p: Bytes)
    requires CfbValid(st) && |p| <= st.unused
    ensures var (c, st') := CfbEncrypt(e, key, st, p);
            var u := |st.iv| - st.unused;
            && st'.lastiv == st.lastiv
            && st'.unused == st.unused - |p|
            && st'.iv == st.iv[..u] + c + st.iv[u + |p|..]
    decreases |p|
  {
    var u := |st.iv| - st.unused;
    if |p| == 0 {
      assert st.iv == st.iv[..u] + [] + st.iv[u..];
    } else {
      assert CfbRefill(e, key, st) == st;
      var c0 := XorByte(CfbKeyByte(st), p[0]);
      var s2 := CfbFeed(st, c0);
      assert s2.iv == st.iv[u := c0];
      CfbWithinBlock(e, key, s2, p[1..]);
      var rest := CfbEncrypt(e, key, s2, p[1..]);
      assert CfbEncrypt(e, key, st, p) == ([c0] + rest.0, rest.1);
      Splice(st.iv, u, c0, rest.0);
    }
  }

  /** Overwriting position `u` and then the stretch after it is the same as
      overwriting the stretch starting at `u` in one go. */
  lemma Splice(a: Bytes, u: nat, c0: byte, r: Bytes)
    requires u + 1 + |r| <= |a|
    ensures var a' := a[u := c0];
            a'[..u + 1] + r + a'[u + 1 + |r|..] == a[..u] + ([c0] + r) + a[u + 1 + |r|..]
  {
    var a' := a[u := c0];
    assert a'[..u + 1] == a[..u] + [c0];
    assert a'[u + 1 + |r|..] == a[u + 1 + |r|..];
  }

  /** Resynchronising after a partial block leaves the register holding the
      last block's worth of ciphertext: the tail of the register the block
      started from followed by the bytes produced since. */
  lemma CfbSyncRealigns(e: BlockFn, key: Bytes, prev: Bytes, last: Bytes, p: Bytes)
    requires |prev| > 0 && |last| == |prev| && 0 < |p| <= |prev|
    ensures var (c, st) := CfbEncrypt(e, key, CfbState(prev, last, 0), p);
            CfbSync(st).iv == (prev + c)[|p|..]
  {
    var n := |prev|;
    var st0 := CfbState(prev, last, 0);
    var s1 := CfbRefill(e, key, st0);
    assert s1 == CfbState(e(key, prev), prev, n);
    var c0 := XorByte(CfbKeyByte(s1), p[0]);
    var s2 := CfbFeed(s1, c0);
    CfbWithinBlock(e, key, s2, p[1..]);
    var rest := CfbEncrypt(e, key, s2, p[1..]);
    assert CfbEncrypt(e, key, st0, p) == ([c0] + rest.0, rest.1);
    var c := [c0] + rest.0;
    var st := rest.1;
    assert st.lastiv == prev && st.unused == n - |p|;
    assert st.iv[..|p|] == c;
    assert (prev + c)[|p|..] == prev[|p|..] + c;
  }
}
