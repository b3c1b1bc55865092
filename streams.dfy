/** A member's source stream, read with a cursor, and the chunking that
    repeated fixed-size reads produce. */
module Streams {
  import opened Archive

  function Min(a: int, b: int): int
  {
    if a <= b then a else b
  }

  /** Concatenation of a sequence of chunks. */
  function Flatten(cs: seq<seq<byte>>): seq<byte>
  {
    if cs == [] then [] else cs[0] + Flatten(cs[1..])
  }

  lemma {:induction false} FlattenConcat(a: seq<seq<byte>>, b: seq<seq<byte>>)
    ensures Flatten(a + b) == Flatten(a) + Flatten(b)
  {
    if a != [] {
      assert (a + b)[1..] == a[1..] + b;
      FlattenConcat(a[1..], b);
    } else {
      assert a + b == b;
    }
  }

  /** The chunks that reading `s` with `read(k)` until the first empty read
      delivers: each read takes `min(k, remaining)` bytes. */
  function Chunks(s: seq<byte>, k: nat): seq<seq<byte>>
    requires k > 0
    decreases |s|
  {
    if s == [] then []
    else
      var m := Min(k, |s|);
      [s[..m]] + Chunks(s[m..], k)
  }

  /** Joined back together, the chunks are the whole stream, in order. */
  lemma {:induction false} ChunksFlatten(s: seq<byte>, k: nat)
    requires k > 0
    ensures Flatten(Chunks(s, k)) == s
    decreases |s|
  {
    if s != [] {
      var m := Min(k, |s|);
      ChunksFlatten(s[m..], k);
      assert Chunks(s, k)[1..] == Chunks(s[m..], k);
    }
  }

  /** No chunk is empty or longer than `k`, and only the last may be shorter. */
  lemma {:induction false} ChunksSizes(s: seq<byte>, k: nat)
    requires k > 0
    ensures forall i :: 0 <= i < |Chunks(s, k)| ==> 0 < |Chunks(s, k)[i]| <= k
    ensures forall i :: 0 <= i < |Chunks(s, k)| - 1 ==> |Chunks(s, k)[i]| == k
    decreases |s|
  {
    if s != [] {
      var m := Min(k, |s|);
      ChunksSizes(s[m..], k);
      var r := Chunks(s, k);
      assert r == [s[..m]] + Chunks(s[m..], k);
      if m < k {
        assert s[m..] == [];
      }
    }
  }

  /** What a single read of at most `k` bytes from `s` returns. */
  function FirstRead(s: seq<byte>, k: nat): seq<byte>
  {
    s[..Min(k, |s|)]
  }

  /** Chunking the rest after the first read continues the chunking. */
  lemma ChunksStep(s: seq<byte>, k: nat)
    requires k > 0 && s != []
    ensures Chunks(s, k) == [FirstRead(s, k)] + Chunks(s[|FirstRead(s, k)|..], k)
  {
  }

  /** The chunking is the only split into non-empty pieces of at most `k`
      bytes, all but the last exactly `k`, whose concatenation is `s`. */
  lemma {:induction false} ChunksUnique(s: seq<byte>, k: nat, cs: seq<seq<byte>>)
    requires k > 0
    requires Flatten(cs) == s
    requires forall i :: 0 <= i < |cs| ==> 0 < |cs[i]| <= k
    requires forall i :: 0 <= i < |cs| - 1 ==> |cs[i]| == k
    ensures cs == Chunks(s, k)
    decreases |cs|
  {
    if cs != [] {
      var c := cs[0];
      var rest := cs[1..];
      assert s == c + Flatten(rest);
      if rest != [] {
        assert |c| == k;
        assert |Flatten(rest)| > 0 by { assert |rest[0]| > 0; assert Flatten(rest) == rest[0] + Flatten(rest[1..]); }
      }
      assert c == s[..Min(k, |s|)];
      assert Flatten(rest) == s[|c|..];
      ChunksUnique(s[|c|..], k, rest);
    }
  }

  /** An open readable stream over the bytes `data`, positioned at `pos`. */
  class Stream {
    const data: seq<byte>
    var pos: nat

    ghost predicate Valid()
      reads this
    {
      pos <= |data|
    }

    /** The bytes not yet read. */
    function Remaining(): seq<byte>
      reads this
      requires Valid()
    {
      data[pos..]
    }

    constructor (content: seq<byte>)
      ensures Valid() && data == content && pos == 0
    {
      data := content;
      pos := 0;
    }

    /** `read(size)`: the next `min(size, remaining)` bytes; empty at the end. */
    method Read(size: nat) returns (chunk: seq<byte>)
      requires Valid()
      modifies this
      ensures Valid()
      ensures chunk == FirstRead(old(Remaining()), size)
      ensures pos == old(pos) + |chunk|
      ensures Remaining() == old(Remaining())[|chunk|..]
    {
      var m := Min(size, |data| - pos);
      chunk := data[pos..pos + m];
      pos := pos + m;
    }
  }
}
