/** The slow image chain both ends compute, and the server's own loop for it. */
module ImageChain {
  import opened Word
  import opened Fips180

  const IV: seq<byte> := Zeros(32)

  /** The retained hash after `i` pixels: SHA-256 of the pixel followed by the previous hash. */
  function ChainHash(rgba: seq<byte>, i: nat): (h: seq<byte>)
    requires 4 * i <= |rgba|
    ensures |h| == 32
  {
    if i == 0 then IV else Sha256(rgba[4 * (i - 1)..4 * i] + ChainHash(rgba, i - 1))
  }

  /** The first `n` retained hashes, last one first. */
  function Reversed(rgba: seq<byte>, n: nat): (r: seq<byte>)
    requires 4 * n <= |rgba|
    ensures |r| == 32 * n
  {
    if n == 0 then [] else ChainHash(rgba, n) + Reversed(rgba, n - 1)
  }

  /** The digest of the first `n` pixels. */
  function DigestOf(rgba: seq<byte>, n: nat): (d: seq<byte>)
    requires 4 * n <= |rgba|
    ensures |d| == 32
  {
    Sha256(Reversed(rgba, n))
  }

  /** The server keeps its hashes in a vector and streams them, last first, into one more hash.
      A trailing part of a pixel is dropped. */
  method ImageDigest(rgba: seq<byte>) returns (d: seq<byte>)
    ensures d == DigestOf(rgba, |rgba| / 4)
  {
    hide Sha256;
    var n := |rgba| / 4;
    var h := IV;
    var store: seq<seq<byte>> := [];
    for i := 0 to n
      invariant h == ChainHash(rgba, i) && |store| == i
      invariant forall j :: 0 <= j < i ==> store[j] == ChainHash(rgba, j + 1)
    {
      h := Sha256(rgba[4 * i..4 * i + 4] + h);
      store := store + [h];
    }
    var fold: seq<byte> := [];
    var left := n;
    while left > 0
      invariant 0 <= left <= n
      invariant fold + Reversed(rgba, left) == Reversed(rgba, n)
    {
      assert fold + Reversed(rgba, left) == fold + store[left - 1] + Reversed(rgba, left - 1);
      left := left - 1;
      fold := fold + store[left];
    }
    assert fold == fold + Reversed(rgba, 0);
    d := Sha256(fold);
  }

  /** Bytes after the last whole pixel never matter. */
  lemma {:induction false} PrefixDecides(rgba: seq<byte>, more: seq<byte>, n: nat)
    requires 4 * n <= |rgba|
    ensures ChainHash(rgba + more, n) == ChainHash(rgba, n)
    ensures Reversed(rgba + more, n) == Reversed(rgba, n)
  {
    hide Sha256;
    if n > 0 {
      PrefixDecides(rgba, more, n - 1);
      assert (rgba + more)[4 * (n - 1)..4 * n] == rgba[4 * (n - 1)..4 * n];
    }
  }

  /** Slots holding the retained hashes last-first are the streamed fold. */
  lemma {:induction false} SlotsAreReversed(rgba: seq<byte>, slots: seq<byte>, n: nat)
    requires 4 * n <= |rgba| && |slots| == 32 * n
    requires forall j :: 1 <= j <= n ==> slots[32 * (n - j)..32 * (n - j) + 32] == ChainHash(rgba, j)
    ensures slots == Reversed(rgba, n)
  {
    hide ChainHash;
    if n > 0 {
      var rest := slots[32..];
      forall j | 1 <= j <= n - 1
        ensures rest[32 * (n - 1 - j)..32 * (n - 1 - j) + 32] == ChainHash(rgba, j)
      {
        assert rest[32 * (n - 1 - j)..32 * (n - 1 - j) + 32] == slots[32 * (n - j)..32 * (n - j) + 32];
      }
      SlotsAreReversed(rgba, rest, n - 1);
      assert slots[0..32] == ChainHash(rgba, n);
      assert slots == slots[0..32] + rest;
    }
  }

  /** `hashes` runs from 32 zero bytes, each next one the hash of a pixel's four bytes and of the one before. */
  ghost predicate IsChain(rgba: seq<byte>, hashes: seq<seq<byte>>) {
    && hashes != [] && 4 * (|hashes| - 1) <= |rgba|
    && |hashes[0]| == 32 && (forall k :: 0 <= k < 32 ==> hashes[0][k] == 0)
    && (forall i :: 0 < i < |hashes| ==>
          hashes[i] == Sha256([rgba[4 * i - 4], rgba[4 * i - 3], rgba[4 * i - 2], rgba[4 * i - 1]] + hashes[i - 1]))
  }

  /** The digest of `n` pixels is the hash of the chain's hashes, last one first and the zero bytes left out. */
  lemma {:induction false} DigestMeans(rgba: seq<byte>, hashes: seq<seq<byte>>, fold: seq<byte>)
    requires IsChain(rgba, hashes) && |fold| == 32 * (|hashes| - 1)
    requires forall i :: 0 < i < |hashes| ==> fold[32 * (|hashes| - 1 - i)..32 * (|hashes| - i)] == hashes[i]
    ensures DigestOf(rgba, |hashes| - 1) == Sha256(fold)
  {
    hide Sha256;
    var n := |hashes| - 1;
    forall i | 0 <= i <= n
      ensures hashes[i] == ChainHash(rgba, i)
    {
      ChainIs(rgba, hashes, i);
    }
    forall j | 1 <= j <= n
      ensures fold[32 * (n - j)..32 * (n - j) + 32] == ChainHash(rgba, j)
    {
      assert fold[32 * (n - j)..32 * (n + 1 - j)] == hashes[j];
    }
    SlotsAreReversed(rgba, fold, n);
  }

  lemma {:induction false} ChainIs(rgba: seq<byte>, hashes: seq<seq<byte>>, i: nat)
    requires IsChain(rgba, hashes) && i < |hashes|
    ensures hashes[i] == ChainHash(rgba, i)
  {
    hide Sha256;
    if i == 0 {
      assert hashes[0] == IV;
    } else {
      ChainIs(rgba, hashes, i - 1);
      assert rgba[4 * (i - 1)..4 * i] == [rgba[4 * i - 4], rgba[4 * i - 3], rgba[4 * i - 2], rgba[4 * i - 1]];
    }
  }
}
