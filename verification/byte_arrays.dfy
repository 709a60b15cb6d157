/** Writing into byte arrays. */
module ByteArrays {
  import opened Bytes

  /** `Uint8Array.set`: the bytes are read before any is written. */
  method Put(dest: array<byte>, at: nat, bytes: seq<byte>)
    requires at + |bytes| <= dest.Length
    modifies dest
    ensures dest[..at] == old(dest[..at])
    ensures dest[at..at + |bytes|] == bytes
    ensures dest[at + |bytes|..] == old(dest[at + |bytes|..])
  {
    forall i | 0 <= i < |bytes| {
      dest[at + i] := bytes[i];
    }
  }

  /** The same, said of all that is written up to there. */
  method PutNext(dest: array<byte>, at: nat, bytes: seq<byte>)
    requires at + |bytes| <= dest.Length
    modifies dest
    ensures dest[..at + |bytes|] == old(dest[..at]) + bytes
  {
    Put(dest, at, bytes);
    assert dest[..at + |bytes|] == dest[..at] + dest[at..at + |bytes|];
  }

  /** At the beginning, before `n` bytes that are there. */
  method PutFirst(dest: array<byte>, bytes: seq<byte>, n: nat)
    requires |bytes| + n <= dest.Length
    modifies dest
    ensures dest[0..|bytes| + n] == bytes + old(dest[|bytes|..|bytes| + n])
  {
    ghost var k := |bytes|;
    Put(dest, 0, bytes);
    assert dest[k..k + n] == dest[k..][..n];
    assert dest[0..k + n] == dest[0..k] + dest[k..k + n];
  }

  /** `Uint8Array.copyWithin`: the ranges can overlap. */
  method CopyWithin(a: array<byte>, to: nat, from: nat, n: nat)
    requires to + n <= a.Length && from + n <= a.Length
    modifies a
    ensures a[..to] == old(a[..to]) && a[to + n..] == old(a[to + n..])
    ensures a[to..to + n] == old(a[from..from + n])
  {
    forall i | 0 <= i < n {
      a[to + i] := a[from + i];
    }
  }

  /** What either does to the whole array. */
  lemma Written(was: seq<byte>, now: seq<byte>, at: nat, bytes: seq<byte>)
    requires at + |bytes| <= |now| == |was|
    requires now[..at] == was[..at] && now[at..at + |bytes|] == bytes && now[at + |bytes|..] == was[at + |bytes|..]
    ensures now == was[..at] + bytes + was[at + |bytes|..]
  {
  }
}
