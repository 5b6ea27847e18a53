/** Stores of several elements one behind the other, as memcpy and the copying loops do them. */
module Buffers {
  method Store<T>(dst: array<T>, at: nat, data: seq<T>)
    requires at + |data| <= dst.Length
    modifies dst
    ensures dst[..at] == old(dst[..at]) && dst[at..at + |data|] == data
    ensures dst[..at + |data|] == old(dst[..at]) + data
    ensures dst[at + |data|..] == old(dst[at + |data|..])
  {
    forall i | 0 <= i < |data| {
      dst[at + i] := data[i];
    }
    assert dst[..at + |data|] == dst[..at] + dst[at..at + |data|];
  }
}
