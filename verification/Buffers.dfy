/** Buffers of zeros that are filled in place from the front. */
module Buffers {
  import opened Bytes

  /** `done` stands in front; the rest is still zero. */
  ghost predicate Filled(buffer: array<Byte>, done: seq<Byte>)
    reads buffer
  {
    |done| <= buffer.Length && buffer[..] == done + Fill(buffer.Length - |done|, 0)
  }

  method Put(buffer: array<Byte>, at: nat, bytes: seq<Byte>)
    requires at + |bytes| <= buffer.Length
    modifies buffer
    ensures buffer[..] == old(buffer[..at]) + bytes + old(buffer[at + |bytes|..])
  {
    forall i | 0 <= i < |bytes| {
      buffer[at + i] := bytes[i];
    }
    assert buffer[..] == buffer[..at] + buffer[at..at + |bytes|] + buffer[at + |bytes|..];
  }

  /** A field that starts where the filled part ends extends it. */
  lemma Extends(done: seq<Byte>, zeros: nat, field: seq<Byte>)
    requires |field| <= zeros
    ensures var all := done + Fill(zeros, 0);
      all[..|done|] + field + all[|done| + |field|..] == (done + field) + Fill(zeros - |field|, 0)
  {
  }

  method PutNext(buffer: array<Byte>, at: nat, bytes: seq<Byte>, ghost done: seq<Byte>)
    requires Filled(buffer, done) && |done| == at && at + |bytes| <= buffer.Length
    modifies buffer
    ensures Filled(buffer, done + bytes)
  {
    hide Fill;
    Extends(done, buffer.Length - at, bytes);
    ghost var before := buffer[..];
    assert buffer[..at] == before[..at] && buffer[at + |bytes|..] == before[at + |bytes|..];
    Put(buffer, at, bytes);
  }

  lemma SkipZeros(buffer: array<Byte>, done: seq<Byte>, n: nat)
    requires Filled(buffer, done) && |done| + n <= buffer.Length
    ensures Filled(buffer, done + Fill(n, 0))
  {
    assert Fill(buffer.Length - |done|, 0) == Fill(n, 0) + Fill(buffer.Length - |done| - n, 0);
  }
}
