/** md5.cpp and its uses: the buffered context on the registers of the source gives the MD5 of RFC 1321. */
module Md5Sum {
  import opened Bytes
  import opened Md5Rfc
  import opened Md5
  import opened Md5Body

  /** md5: one call of each. */
  method Sum(data: seq<byte>) returns (dest: seq<byte>)
    requires |data| < ULONG
    ensures dest == Md5Rfc.Md5(data)
  {
    var ctx := new Context(WIDE);
    ctx.Update(data);
    assert [] + data == data;
    dest := ctx.Final();
    WideHashIsMd5(data);
  }

  /** Any number of updates. */
  method SumOf(chunks: seq<seq<byte>>) returns (dest: seq<byte>)
    requires forall chunk :: chunk in chunks ==> |chunk| < ULONG
    ensures dest == Md5Rfc.Md5(Concat(chunks))
  {
    dest := DigestOf(WIDE, chunks);
    WideHashIsMd5(Concat(chunks));
  }
}
