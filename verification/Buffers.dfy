/** In-place operations on byte buffers. */
module Buffers {
  import opened Bytes
  import opened HashSuite

  /** Go's copy(dst[at:], src) and the widget's dst.set(src, at): as many bytes as fit. */
  method CopyInto(dst: array<Byte>, at: nat, src: Bytes) returns (n: nat)
    requires at <= dst.Length
    modifies dst
    ensures n == if |src| <= dst.Length - at then |src| else dst.Length - at
    ensures dst[..] == old(dst[..at]) + src[..n] + old(dst[at + n..])
  {
    n := if |src| <= dst.Length - at then |src| else dst.Length - at;
    for i := 0 to n
      invariant dst[..at] == old(dst[..at])
      invariant dst[at..at + i] == src[..i]
      invariant dst[at + i..] == old(dst[at + i..])
    {
      dst[at + i] := src[i];
    }
  }

  /** dst[i] ^= src[i] for every index of dst. */
  method XorBytes(dst: array<Byte>, src: Bytes)
    requires dst.Length <= |src|
    modifies dst
    ensures dst[..] == Xor(old(dst[..]), src)
  {
    for i := 0 to dst.Length
      invariant forall k :: 0 <= k < i ==> dst[k] == XorByte(old(dst[k]), src[k])
      invariant forall k :: i <= k < dst.Length ==> dst[k] == old(dst[k])
    {
      dst[i] := XorByte(dst[i], src[i]);
    }
  }

  function DoneAfter(count: nat, length: nat): nat {
    if 48 * count <= length then 48 * count else length
  }

  lemma {:induction false} StreamExtends(block: Blocks, count: nat, length: nat, buf: Bytes, more: Bytes)
    requires 48 * count < length
    requires buf == Stream(block, 48 * count)
    requires more == block(count)[..DoneAfter(count + 1, length) - 48 * count]
    ensures buf + more == Stream(block, DoneAfter(count + 1, length))
  {
    StreamFromEnough(block, 48 * count, count);
    StreamFromEnough(block, DoneAfter(count + 1, length), count + 1);
    assert Concat(block, count)[..48 * count] == Concat(block, count);
  }

  /** The expansion loop of mgf1SHA384: hash seed and counter, copy, until length bytes are there. */
  method Mgf1SHA384(suite: Suite, seed: Bytes, length: nat) returns (mask: Bytes)
    ensures mask == Mgf1(suite, seed, length)
  {
    var out := new Byte[length];
    var done, i := 0, 0;
    ghost var block := Mgf1Block(suite, seed);
    while done < length
      invariant done == DoneAfter(i, length)
      invariant out[..done] == Stream(block, done)
      decreases length - done
    {
      var chunk := suite.sha384(seed + I2OSP(i % 0x1_0000_0000, 4));
      var n := CopyInto(out, done, chunk);
      StreamExtends(block, i, length, out[..done], chunk[..n]);
      assert out[..done + n] == out[..done] + chunk[..n];
      done := done + n;
      i := i + 1;
    }
    assert out[..] == out[..done];
    return out[..];
  }
}
