/** Block hashes of a prompt (kv_event.rs), and what prompts with a common prefix share. */
module Overlap {
  import opened Arithmetic
  import opened Wrappers
  import opened CuckooFilter

  // ---------- the seed ----------

  const XXH3_SEED: bv64 := 1337
  const NS_SALT: bv64 := 0x4e53_5f4c_4f5f_4c4f
  const LORA_SALT: bv64 := 0x4c52_4f5f_4c4f_5f4c

  function WrappingAdd(x: bv64, y: bv64): bv64 { x + y }
  function WrappingSub(x: bv64, y: bv64): bv64 { x - y }
  function Xor64(x: bv64, y: bv64): bv64 { x ^ y }

  function Mix(seed: bv64, hash: bv64, salt: bv64): bv64 { Xor64(WrappingAdd(seed, hash), salt) }

  /** The hash of a name under its salt, mixed into the seed; an empty name counts as none. */
  function Mixed(xxh3: (seq<bv8>, bv64) -> bv64, seed: bv64, name: Option<seq<bv8>>, salt: bv64): bv64 {
    if name.Some? && name.value != [] then Mix(seed, xxh3(name.value, salt), salt) else seed
  }

  function SeedOf(xxh3: (seq<bv8>, bv64) -> bv64, ns: Option<seq<bv8>>, lora: Option<seq<bv8>>): bv64 {
    Mixed(xxh3, Mixed(xxh3, XXH3_SEED, ns, NS_SALT), lora, LORA_SALT)
  }

  /** `compute_seed`. */
  method ComputeSeed(xxh3: (seq<bv8>, bv64) -> bv64, ns: Option<seq<bv8>>, lora: Option<seq<bv8>>)
    returns (seed: bv64)
    ensures seed == SeedOf(xxh3, ns, lora)
  {
    hide Mix;
    seed := XXH3_SEED;
    if ns.Some? && ns.value != [] {
      seed := AddAndXor(seed, xxh3(ns.value, NS_SALT), NS_SALT);
    }
    if lora.Some? && lora.value != [] {
      seed := AddAndXor(seed, xxh3(lora.value, LORA_SALT), LORA_SALT);
    }
  }

  method AddAndXor(seed: bv64, hash: bv64, salt: bv64) returns (seed': bv64)
    ensures seed' == Mix(seed, hash, salt)
  {
    seed' := WrappingAdd(seed, hash);
    seed' := Xor64(seed', salt);
  }

  lemma XorCancels(x: bv64, salt: bv64)
    ensures Xor64(Xor64(x, salt), salt) == x
  {}

  lemma AddCancels(x: bv64, y: bv64)
    ensures WrappingSub(WrappingAdd(x, y), y) == x && WrappingSub(WrappingAdd(x, y), x) == y
  {}

  /** Mixing loses nothing: neither of the seed it starts from nor of the name's hash. */
  lemma MixingIsExact(seed: bv64, seed': bv64, x: bv64, y: bv64, salt: bv64)
    requires seed == seed' || x == y
    ensures Mix(seed, x, salt) == Mix(seed', y, salt) <==> seed == seed' && x == y
  {
    hide WrappingAdd, WrappingSub, Xor64;
    XorCancels(WrappingAdd(seed, x), salt);
    XorCancels(WrappingAdd(seed', y), salt);
    AddCancels(seed, x);
    AddCancels(seed', y);
  }

  /**
   Namespaces and adapters are kept apart exactly as far as their own salted hashes are:
   with the other name fixed, two seeds agree iff the hashes do.
   */
  lemma SeedsAgreeIff(xxh3: (seq<bv8>, bv64) -> bv64, m: seq<bv8>, n: seq<bv8>, other: Option<seq<bv8>>)
    requires m != [] && n != []
    ensures SeedOf(xxh3, Some(m), other) == SeedOf(xxh3, Some(n), other) <==> xxh3(m, NS_SALT) == xxh3(n, NS_SALT)
    ensures SeedOf(xxh3, other, Some(m)) == SeedOf(xxh3, other, Some(n)) <==> xxh3(m, LORA_SALT) == xxh3(n, LORA_SALT)
  {
    hide Mix;
    MixingIsExact(XXH3_SEED, XXH3_SEED, xxh3(m, NS_SALT), xxh3(n, NS_SALT), NS_SALT);
    if other.Some? {
      var x := xxh3(other.value, LORA_SALT);
      MixingIsExact(Mixed(xxh3, XXH3_SEED, Some(m), NS_SALT), Mixed(xxh3, XXH3_SEED, Some(n), NS_SALT), x, x,
                    LORA_SALT);
    }
    var s := Mixed(xxh3, XXH3_SEED, other, NS_SALT);
    MixingIsExact(s, s, xxh3(m, LORA_SALT), xxh3(n, LORA_SALT), LORA_SALT);
  }

  /** An empty name is no name. */
  lemma EmptyNameIsNone(xxh3: (seq<bv8>, bv64) -> bv64, name: Option<seq<bv8>>)
    ensures SeedOf(xxh3, Some([]), name) == SeedOf(xxh3, None, name)
    ensures SeedOf(xxh3, name, Some([])) == SeedOf(xxh3, name, None)
    ensures SeedOf(xxh3, None, None) == 1337
  {}

  // ---------- block hashes ----------

  /** One token as four little-endian bytes. */
  function TokenBytes(t: bv32): seq<bv8> {
    [(t & 0xFF) as bv8, ((t >> 8) & 0xFF) as bv8, ((t >> 16) & 0xFF) as bv8, ((t >> 24) & 0xFF) as bv8]
  }

  function Bytes(tokens: seq<bv32>): seq<bv8> {
    if tokens == [] then [] else Bytes(tokens[..|tokens| - 1]) + TokenBytes(tokens[|tokens| - 1])
  }

  /** `compute_block_hashes`: one hash per complete block, none for block size 0. */
  method ComputeBlockHashes(xxh3: (seq<bv8>, bv64) -> bv64, ns: Option<seq<bv8>>, lora: Option<seq<bv8>>,
                            tokens: seq<bv32>, kvBlockSize: nat)
    returns (hashes: seq<Hash>)
    ensures IsBlockHashes(xxh3, SeedOf(xxh3, ns, lora), tokens, kvBlockSize, hashes)
  {
    hashes := [];
    if kvBlockSize == 0 {
      return;
    }
    var seed := ComputeSeed(xxh3, ns, lora);
    var start := 0;
    while start + kvBlockSize <= |tokens|
      invariant start == |hashes| * kvBlockSize <= |tokens|
      invariant forall k :: 0 <= k < |hashes| ==> BlockHashAt(xxh3, seed, tokens, kvBlockSize, k, hashes[k])
    {
      var window := tokens[start..start + kvBlockSize];
      var bytes := WindowBytes(window);
      assert start + kvBlockSize == (|hashes| + 1) * kvBlockSize;
      hashes := hashes + [Hash(xxh3(bytes, seed))];
      start := start + kvBlockSize;
    }
    assert start + kvBlockSize == (|hashes| + 1) * kvBlockSize;
  }

  method WindowBytes(window: seq<bv32>) returns (bytes: seq<bv8>)
    ensures bytes == Bytes(window)
  {
    hide TokenBytes;
    bytes := [];
    for i := 0 to |window|
      invariant bytes == Bytes(window[..i])
    {
      assert window[..i + 1][..i] == window[..i];
      bytes := bytes + TokenBytes(window[i]);
    }
    assert window[..|window|] == window;
  }

  /** `h` is the hash of the complete block `k`. */
  ghost predicate BlockHashAt(xxh3: (seq<bv8>, bv64) -> bv64, seed: bv64, tokens: seq<bv32>, size: nat, k: nat,
                              h: Hash) {
    (k + 1) * size <= |tokens| && h == Hash(xxh3(Bytes(tokens[k * size..(k + 1) * size]), seed))
  }

  /** As many hashes as complete blocks fit, each that of its block. */
  ghost predicate IsBlockHashes(xxh3: (seq<bv8>, bv64) -> bv64, seed: bv64, tokens: seq<bv32>, size: nat,
                                hashes: seq<Hash>) {
    if size == 0 then hashes == []
    else
      && |hashes| * size <= |tokens| < (|hashes| + 1) * size
      && forall k :: 0 <= k < |hashes| ==> BlockHashAt(xxh3, seed, tokens, size, k, hashes[k])
  }

  /** Prompts that agree on their first `m` blocks agree on their first `m` block hashes. */
  lemma SharedPrefixSharesHashes(xxh3: (seq<bv8>, bv64) -> bv64, seed: bv64, size: nat,
                                 p: seq<bv32>, hp: seq<Hash>, q: seq<bv32>, hq: seq<Hash>, n: nat, m: nat)
    requires size > 0 && n <= |p| && n <= |q| && p[..n] == q[..n] && m * size <= n
    requires IsBlockHashes(xxh3, seed, p, size, hp) && IsBlockHashes(xxh3, seed, q, size, hq)
    ensures m <= |hp| && m <= |hq| && hp[..m] == hq[..m]
  {
    BlocksFit(m, size, |p|, |hp|);
    BlocksFit(m, size, |q|, |hq|);
    forall k | 0 <= k < m ensures hp[k] == hq[k] {
      MulMonotone(k, k + 1, size);
      MulMonotone(k + 1, m, size);
      SameBlock(xxh3, seed, size, p, q, n, k, hp[k], hq[k]);
    }
  }

  lemma SameBlock(xxh3: (seq<bv8>, bv64) -> bv64, seed: bv64, size: nat,
                  p: seq<bv32>, q: seq<bv32>, n: nat, k: nat, hp: Hash, hq: Hash)
    requires n <= |p| && n <= |q| && p[..n] == q[..n] && k * size <= (k + 1) * size <= n
    requires BlockHashAt(xxh3, seed, p, size, k, hp) && BlockHashAt(xxh3, seed, q, size, k, hq)
    ensures hp == hq
  {
    hide Bytes;
    SameWindow(p, q, n, k * size, (k + 1) * size);
  }

  lemma SameWindow(p: seq<bv32>, q: seq<bv32>, n: nat, lo: nat, hi: nat)
    requires n <= |p| && n <= |q| && p[..n] == q[..n] && lo <= hi <= n
    ensures p[lo..hi] == q[lo..hi]
  {
    assert p[lo..hi] == p[..n][lo..hi] && q[..n][lo..hi] == q[lo..hi];
  }

  lemma BlocksFit(m: nat, size: nat, n: nat, blocks: nat)
    requires m * size <= n
    ensures n < (blocks + 1) * size ==> m <= blocks
  {
    if m > blocks { MulMonotone(blocks + 1, m, size); }
  }

  // ---------- what is hashed ----------

  /** The bytes of a token put together again, lowest first. */
  function TokenOf(bytes: seq<bv8>): bv32
    requires |bytes| == 4
  {
    (bytes[0] as bv32) | ((bytes[1] as bv32) << 8) | ((bytes[2] as bv32) << 16) | ((bytes[3] as bv32) << 24)
  }

  lemma TokenFromBytes(t: bv32)
    ensures |TokenBytes(t)| == 4 && TokenOf(TokenBytes(t)) == t
  {}

  /** Windows of tokens with the same bytes are the same: distinct blocks are hashed from distinct bytes. */
  lemma {:induction false} BytesInjective(p: seq<bv32>, q: seq<bv32>)
    requires Bytes(p) == Bytes(q)
    ensures p == q
  {
    hide TokenBytes;
    BytesLength(p);
    BytesLength(q);
    if p != [] {
      var n := |p| - 1;
      TokenFromBytes(p[n]);
      TokenFromBytes(q[n]);
      LastToken(p);
      LastToken(q);
      BytesInjective(p[..n], q[..n]);
    }
  }

  lemma LastToken(p: seq<bv32>)
    requires p != []
    ensures |Bytes(p)| >= 4
    ensures Bytes(p)[..|Bytes(p)| - 4] == Bytes(p[..|p| - 1]) && Bytes(p)[|Bytes(p)| - 4..] == TokenBytes(p[|p| - 1])
  {
    TokenFromBytes(p[|p| - 1]);
    hide TokenBytes, TokenOf;
  }

  lemma {:induction false} BytesLength(p: seq<bv32>)
    ensures |Bytes(p)| == 4 * |p|
  {
    if p != [] {
      BytesLength(p[..|p| - 1]);
      TokenFromBytes(p[|p| - 1]);
      hide TokenBytes;
    }
  }
}
