/** HMAC-SHA256 as section 2 of RFC 2104 defines it, and the routine that computes it. */
module Hmac {
  import opened Fips180
  import opened Sha256Hasher

  const IPAD: bv8 := 0x36
  const OPAD: bv8 := 0x5c

  function XorAll(s: seq<bv8>, b: bv8): (r: seq<bv8>)
    ensures |r| == |s|
  {
    seq(|s|, i requires 0 <= i < |s| => s[i] ^ b)
  }

  /** A key longer than a block is hashed first; then it is filled up with zero bytes. */
  function KeyBlock(key: seq<bv8>): (k: seq<bv8>)
    ensures |k| == BLOCK
  {
    var k := if |key| > BLOCK then Digest(key) else key;
    k + Zeros(BLOCK - |k|)
  }

  /** H(K XOR opad, H(K XOR ipad, text)). */
  function Mac(key: seq<bv8>, msg: seq<bv8>): (m: seq<bv8>)
    ensures |m| == 32
  {
    Digest(XorAll(KeyBlock(key), OPAD) + Digest(XorAll(KeyBlock(key), IPAD) + msg))
  }

  /** A key of at most 64 bytes is filled up with zeros; of a longer one its digest is. */
  lemma KeyBlockBytes(key: seq<bv8>, i: nat)
    requires i < 64
    ensures |key| <= 64 ==> KeyBlock(key)[i] == if i < |key| then key[i] else 0
    ensures |key| > 64 ==> KeyBlock(key)[i] == if i < 32 then Digest(key)[i] else 0
  {
    hide Digest;
  }

  /**
    The two hashed texts of an HMAC: the inner one is a block of key bytes plus 0x36 and the message, the outer one
    a block of key bytes plus 0x5c and the inner digest.
   */
  lemma MacTexts(key: seq<bv8>, msg: seq<bv8>) returns (inner: seq<bv8>, outer: seq<bv8>)
    ensures Mac(key, msg) == Digest(outer)
    ensures |inner| == 64 + |msg| && inner[64..] == msg
    ensures |outer| == 64 + 32 && outer[64..] == Digest(inner)
    ensures forall i :: 0 <= i < 64 ==> inner[i] == KeyBlock(key)[i] ^ 0x36 && outer[i] == KeyBlock(key)[i] ^ 0x5c
  {
    hide Digest, KeyBlock;
    inner := XorAll(KeyBlock(key), IPAD) + msg;
    outer := XorAll(KeyBlock(key), OPAD) + Digest(inner);
  }

  method PrepareKey(key: seq<bv8>) returns (k: array<bv8>)
    ensures fresh(k) && k[..] == KeyBlock(key)
  {
    hide Digest;
    var short := key;
    if |short| > BLOCK {
      var d := Sha256.DigestOf(short);
      short := d[..];
    }
    k := new bv8[BLOCK](i => if 0 <= i < |short| then short[i] else 0);
  }

  method Pads(k: array<bv8>) returns (ipad: array<bv8>, opad: array<bv8>)
    requires k.Length == BLOCK
    ensures ipad[..] == XorAll(k[..], IPAD) && opad[..] == XorAll(k[..], OPAD)
  {
    ipad, opad := new bv8[BLOCK], new bv8[BLOCK];
    for i := 0 to BLOCK
      invariant forall j :: 0 <= j < i ==> ipad[j] == k[j] ^ IPAD && opad[j] == k[j] ^ OPAD
    {
      ipad[i] := k[i] ^ IPAD;
      opad[i] := k[i] ^ OPAD;
    }
  }

  /** A hasher fed a pad and then the rest. */
  method DigestOfPair(pad: seq<bv8>, rest: seq<bv8>) returns (out: array<bv8>)
    ensures fresh(out) && out[..] == Digest(pad + rest)
  {
    hide Digest, Sha256.Absorbed, Sha256.Valid;
    var s := new Sha256();
    s.Update(pad);
    if rest != [] {
      s.Update(rest);
    }
    assert s.msg == pad + rest;
    out := s.Finish();
  }

  method HmacSha256(key: seq<bv8>, msg: seq<bv8>) returns (out: array<bv8>)
    ensures fresh(out) && out[..] == Mac(key, msg)
  {
    hide Digest, KeyBlock, XorAll;
    var k := PrepareKey(key);
    var ipad, opad := Pads(k);
    var inner := DigestOfPair(ipad[..], msg);
    out := DigestOfPair(opad[..], inner[..]);
  }

  function Flatten(chunks: seq<seq<bv8>>): seq<bv8> {
    if chunks == [] then [] else Flatten(chunks[..|chunks| - 1]) + chunks[|chunks| - 1]
  }

  /** However a message is cut into chunks, feeding the chunks in turn gives the digest of the whole. */
  method DigestOfChunks(chunks: seq<seq<bv8>>) returns (out: array<bv8>)
    ensures out[..] == Digest(Flatten(chunks))
  {
    hide Digest, Sha256.Absorbed, Sha256.Valid;
    var s := new Sha256();
    for i := 0 to |chunks|
      invariant s.Absorbed() && s.Valid() && fresh(s) && fresh(s.h) && fresh(s.buf)
      invariant s.msg == Flatten(chunks[..i])
    {
      assert chunks[..i + 1][..i] == chunks[..i];
      s.Update(chunks[i]);
    }
    assert chunks[..|chunks|] == chunks;
    out := s.Finish();
  }

  /** Accumulates the differences of all byte pairs; no early exit. */
  method ConstantTimeEqual(a: seq<bv8>, b: seq<bv8>) returns (equal: bool)
    requires |a| == |b| == 32
    ensures equal <==> a == b
  {
    var diff: bv8 := 0;
    for i := 0 to 32
      invariant diff == 0 <==> a[..i] == b[..i]
    {
      OrXor(diff, a[i], b[i]);
      assert a[..i + 1] == a[..i] + [a[i]] && b[..i + 1] == b[..i] + [b[i]];
      diff := diff | (a[i] ^ b[i]);
    }
    equal := diff == 0;
    assert a[..32] == a && b[..32] == b;
  }

  lemma OrXor(d: bv8, x: bv8, y: bv8)
    ensures d | (x ^ y) == 0 <==> d == 0 && x == y
  {
  }
}
