/** md5_impl.c: the streaming digest, with its 64-byte buffer and split length counter. */
module Md5 {
  import opened Bytes
  import opened Buffers
  import opened Md5Rfc

  const LOW_RANGE := 0x2000_0000
  const ULONG := 0x1_0000_0000_0000_0000

  /** How much of `n` bytes fills whole blocks. */
  function Full(n: nat): (m: nat)
    ensures m <= n < m + 64 && m % 64 == 0
  {
    Blocks(n);
    n - n % 64
  }

  lemma Blocks(n: nat)
    ensures 0 <= n % 64 < 64 && n % 64 <= n && (n - n % 64) % 64 == 0
  {
    assert n - n % 64 == n / 64 * 64;
  }

  /** lo and hi after `size` more bytes, computed with the carry test of MD5_Update. */
  function Counted(lo: nat, hi: nat, size: nat): (nat, nat) {
    var lo' := (lo + size) % ULONG % LOW_RANGE;
    var hi' := if lo' < lo then (hi + 1) % ULONG else hi;
    (lo', (hi' + size / LOW_RANGE) % ULONG)
  }

  lemma CountedCounts(n: nat, size: nat)
    ensures Counted(n % LOW_RANGE, n / LOW_RANGE % ULONG, size)
            == ((n + size) % LOW_RANGE, (n + size) / LOW_RANGE % ULONG)
  {
    var lo, q := n % LOW_RANGE, n / LOW_RANGE;
    var s, p := size % LOW_RANGE, size / LOW_RANGE;
    assert n == q * LOW_RANGE + lo && size == p * LOW_RANGE + s;
    var carry := if lo + s >= LOW_RANGE then 1 else 0;
    assert n + size == (q + p + carry) * LOW_RANGE + (lo + s - carry * LOW_RANGE);
    assert (n + size) / LOW_RANGE == q + p + carry && (n + size) % LOW_RANGE == lo + s - carry * LOW_RANGE;
    WrapThenMask(lo + size);
    assert (lo + size) % LOW_RANGE == lo + s - carry * LOW_RANGE;
    ModAdds(q, p, carry);
  }

  lemma WrapThenMask(x: nat)
    ensures x % ULONG % LOW_RANGE == x % LOW_RANGE
  {
    var k := x / ULONG;
    assert x == k * ULONG + x % ULONG;
    assert x == (k * 0x8_0000_0000 + x % ULONG / LOW_RANGE) * LOW_RANGE + x % ULONG % LOW_RANGE;
  }

  lemma ModAdds(q: nat, p: nat, carry: nat)
    requires carry <= 1
    ensures ((if carry == 1 then (q % ULONG + 1) % ULONG else q % ULONG) + p) % ULONG == (q + p + carry) % ULONG
  {
  }

  /** The digest state after the whole blocks of `msg`, and what is left over. */
  function State<R>(m: Machine<R>, msg: seq<byte>): R {
    CompressAll(m, m.init, msg[..Full(|msg|)])
  }

  function Rest(msg: seq<byte>): (r: seq<byte>)
    ensures |r| == |msg| % 64
  {
    msg[Full(|msg|)..]
  }

  /** More data goes through the leftover tail: only tail + data matters. */
  lemma MoreData<R>(m: Machine<R>, msg: seq<byte>, data: seq<byte>)
    ensures var all := Rest(msg) + data;
            && State(m, msg + data) == CompressAll(m, State(m, msg), all[..Full(|all|)])
            && Rest(msg + data) == Rest(all)
  {
    var all := Rest(msg) + data;
    var done := msg[..Full(|msg|)];
    assert msg + data == done + all;
    FullAdds(|done|, |all|);
    assert (msg + data)[..Full(|msg + data|)] == done + all[..Full(|all|)];
    CompressAllAppend(m, m.init, done, all[..Full(|all|)]);
  }

  lemma FullAdds(m: nat, n: nat)
    requires m % 64 == 0
    ensures Full(m + n) == m + Full(n)
  {
    var k := m / 64;
    assert m == 64 * k;
    assert (64 * k + n) % 64 == n % 64;
  }

  lemma LowBits(n: nat)
    ensures n % LOW_RANGE % 64 == n % 64
  {
  }

  /** Compressing the first block on its own. */
  lemma FirstBlock<R>(m: Machine<R>, start: R, all: seq<byte>)
    requires |all| >= 64
    ensures CompressAll(m, start, all[..Full(|all|)])
            == CompressAll(m, CompressAll(m, start, all[..64]), all[64..][..Full(|all| - 64)])
    ensures Rest(all) == Rest(all[64..])
  {
    FullAdds(64, |all| - 64);
    assert all[..Full(|all|)] == all[..64] + all[64..][..Full(|all| - 64)];
    CompressAllAppend(m, start, all[..64], all[64..][..Full(|all| - 64)]);
  }

  class Context<R> {
    const m: Machine<R>
    var lo: nat
    var hi: nat
    var regs: R  // a, b, c and d
    const buffer: array<byte>
    ghost var msg: seq<byte>  // everything passed to Update so far

    /** How `msg` was cut into calls leaves no trace. */
    ghost predicate Valid()
      reads this, buffer
    {
      && buffer.Length == 64
      && lo == |msg| % LOW_RANGE && hi == |msg| / LOW_RANGE % ULONG
      && regs == State(m, msg)
      && buffer[..|msg| % 64] == Rest(msg)
    }

    /** MD5_Init. */
    constructor (machine: Machine<R>)
      ensures Valid() && msg == [] && m == machine && fresh(buffer)
    {
      m := machine;
      buffer := new byte[64](_ => 0);
      regs := machine.init;
      lo, hi, msg := 0, 0, [];
    }

    /** body: one or more whole blocks. */
    method Body(data: seq<byte>)
      requires data != [] && |data| % 64 == 0
      modifies `regs
      ensures regs == CompressAll(m, old(regs), data)
    {
      var ptr := data;
      while ptr != []
        invariant |ptr| % 64 == 0
        invariant CompressAll(m, regs, ptr) == CompressAll(m, old(regs), data)
      {
        regs := m.compress(regs, ptr[..64]);
        ptr := ptr[64..];
      }
    }

    /** Fill the buffer up and compress it. */
    method FillUp(used: nat, data: seq<byte>)
      requires buffer.Length == 64 && used + |data| == 64
      modifies `regs, buffer
      ensures regs == CompressAll(m, old(regs), old(buffer[..used]) + data)
    {
      ghost var block := buffer[..used] + data;
      Store(buffer, used, data);
      assert buffer[..] == buffer[..used] + buffer[used..64] == block;
      Body(buffer[..]);
    }

    /** Compress whole blocks straight from the data, and keep the rest. */
    method AbsorbWhole(data: seq<byte>)
      requires buffer.Length == 64
      modifies `regs, buffer
      ensures regs == CompressAll(m, old(regs), data[..Full(|data|)])
      ensures buffer[..|data| % 64] == Rest(data)
    {
      var rest := data;
      if |data| >= 64 {
        var whole := Full(|data|);
        Body(data[..whole]);
        rest := data[whole..];
      }
      assert rest == Rest(data);
      Store(buffer, 0, rest);
      assert buffer[..|rest|] == buffer[0..|rest|];
    }

    /** The part of MD5_Update that moves data: fill up the buffer, compress what is whole, keep the rest. */
    method Absorb(used: nat, data: seq<byte>)
      requires buffer.Length == 64 && used < 64
      modifies `regs, buffer
      ensures var all := old(buffer[..used]) + data;
              && regs == CompressAll(m, old(regs), all[..Full(|all|)])
              && buffer[..|all| % 64] == Rest(all)
    {
      ghost var start, all := regs, buffer[..used] + data;
      if used == 0 {
        assert all == data;
        AbsorbWhole(data);
        return;
      }
      var free := 64 - used;
      if |data| < free {
        Store(buffer, used, data);
        assert all[..Full(|all|)] == [] && Rest(all) == all;
        assert buffer[..used + |data|] == buffer[..used] + buffer[used..used + |data|] == all;
        return;
      }
      assert all[..64] == buffer[..used] + data[..free] && all[64..] == data[free..];
      FirstBlock(m, start, all);
      FillUp(used, data[..free]);
      AbsorbWhole(data[free..]);
    }

    /** MD5_Update. */
    method Update(data: seq<byte>)
      requires Valid() && |data| < ULONG
      modifies this, buffer
      ensures Valid() && msg == old(msg) + data
    {
      CountedCounts(|msg|, |data|);
      MoreData(m, msg, data);
      LowBits(|msg|);
      var used, counts := lo % 64, Counted(lo, hi, |data|);
      lo, hi := counts.0, counts.1;
      Absorb(used, data);
      msg := msg + data;
    }

    /** The bytes of the length, from lo and hi. */
    method StoreLength(ghost n: nat)
      requires buffer.Length == 64 && lo == n % LOW_RANGE && hi == n / LOW_RANGE % ULONG
      modifies `lo, buffer
      ensures buffer[..] == old(buffer[..56]) + LengthField(n)
    {
      lo := lo * 8 % ULONG;
      LengthBytes(n, lo, hi);
      var length := FourBytes(lo) + FourBytes(hi);
      Store(buffer, 56, length);
      assert buffer[..] == buffer[..56] + buffer[56..64];
    }

    /** The one bit and the zeros; a block goes out when they leave no room for the length. */
    method PadTail(used: nat)
      requires buffer.Length == 64 && used < 64
      modifies `regs, buffer
      ensures var tail := old(buffer[..used]);
              if used < 56 then
                regs == old(regs) && buffer[..56] == tail + [0x80] + Zeros(55 - used)
              else
                regs == CompressAll(m, old(regs), tail + [0x80] + Zeros(63 - used)) && buffer[..56] == Zeros(56)
    {
      ghost var tail := buffer[..used];
      Store(buffer, used, [0x80]);
      var at := used + 1;
      assert buffer[..at] == buffer[..used] + buffer[used..at] == tail + [0x80];
      var free := 64 - at;
      if free < 8 {
        Store(buffer, at, Zeros(free));
        assert buffer[..] == buffer[..at] + buffer[at..64] == tail + [0x80] + Zeros(63 - used);
        Body(buffer[..]);
        at, free := 0, 64;
      }
      Store(buffer, at, Zeros(free - 8));
      assert buffer[..56] == buffer[..at] + buffer[at..56];
    }

    /** The tail of the message, its padding and its length go through the compression step. */
    method CompressTail()
      requires Valid()
      modifies this, buffer
      ensures regs == CompressAll(m, m.init, old(msg) + Padding(|old(msg)|))
    {
      LowBits(|msg|);
      FinalBlocks(m, msg);
      PadTail(lo % 64);
      StoreLength(|msg|);
      Body(buffer[..]);
    }

    /**
     * MD5_Final: feeds the compression step the tail and its padding, in one block or two. The
     * final memset clears as many bytes as a pointer has, which is `lo`.
     */
    method Final() returns (result: seq<byte>)
      requires Valid()
      modifies this, buffer
      ensures result == Hash(m, old(msg))
      ensures lo == 0
    {
      CompressTail();
      result := m.output(regs);
      lo := 0;
    }
  }

  /** What has been compressed already needs no second look. */
  lemma OnlyTailIsLeft<R>(m: Machine<R>, msg: seq<byte>, padding: seq<byte>)
    requires (|msg| + |padding|) % 64 == 0
    ensures |Rest(msg) + padding| % 64 == 0
    ensures CompressAll(m, m.init, msg + padding) == CompressAll(m, State(m, msg), Rest(msg) + padding)
  {
    var done, left := msg[..Full(|msg|)], Rest(msg) + padding;
    assert msg + padding == done + left;
    CompressAllAppend(m, m.init, done, left);
  }

  /** The blocks MD5_Final compresses are the tail of the padded message. */
  lemma FinalBlocks<R>(m: Machine<R>, msg: seq<byte>)
    ensures var tail, length := Rest(msg), LengthField(|msg|);
            CompressAll(m, m.init, msg + Padding(|msg|))
            == if |tail| < 56 then
                 CompressAll(m, State(m, msg), tail + [0x80] + Zeros(55 - |tail|) + length)
               else
                 var r := CompressAll(m, State(m, msg), tail + [0x80] + Zeros(63 - |tail|));
                 CompressAll(m, r, Zeros(56) + length)
  {
    var tail := Rest(msg);
    OnlyTailIsLeft(m, msg, Padding(|msg|));
    PaddedTail(|msg|, tail);
    if |tail| >= 56 {
      CompressAllAppend(m, State(m, msg), tail + [0x80] + Zeros(63 - |tail|), Zeros(56) + LengthField(|msg|));
    }
  }

  lemma PaddedTail(n: nat, tail: seq<byte>)
    requires |tail| == n % 64
    ensures tail + Padding(n)
            == if |tail| < 56 then tail + [0x80] + Zeros(55 - |tail|) + LengthField(n)
               else tail + [0x80] + Zeros(63 - |tail|) + (Zeros(56) + LengthField(n))
  {
    assert PadZeros(n) == if |tail| < 56 then 55 - |tail| else 119 - |tail|;
  }

  /** The low four bytes of a counter, as MD5_Final stores them. */
  function FourBytes(v: nat): (r: seq<byte>)
    ensures |r| == 4
  {
    [v % 256, v / 0x100 % 256, v / 0x1_0000 % 256, v / 0x100_0000 % 256]
  }

  /** The length field that MD5_Final makes of lo and hi. */
  lemma LengthBytes(n: nat, lo: nat, hi: nat)
    requires lo == n % LOW_RANGE * 8 % ULONG && hi == n / LOW_RANGE % ULONG
    ensures LengthField(n) == FourBytes(lo) + FourBytes(hi)
  {
    assert lo == n % LOW_RANGE * 8;
    BitLength(n);
    HighBytes(n / LOW_RANGE);
    LittleEndianHalves(lo, n / LOW_RANGE % WORD);
    LittleEndianFour(lo);
    LittleEndianFour(n / LOW_RANGE % WORD);
  }

  lemma BitLength(n: nat)
    ensures LengthField(n) == LittleEndian(n / LOW_RANGE % WORD * WORD + n % LOW_RANGE * 8, 8)
  {
    var lo, q := n % LOW_RANGE * 8, n / LOW_RANGE;
    var high := q % WORD;
    assert n == q * LOW_RANGE + n % LOW_RANGE;
    assert q == q / WORD * WORD + high;
    assert 8 * n == q / WORD * (WORD * WORD) + (high * WORD + lo);
    assert 8 * n % (WORD * WORD) == high * WORD + lo;
  }

  function Power256(k: nat): (p: nat)
    ensures p > 0
  {
    if k == 0 then 1 else 256 * Power256(k - 1)
  }

  /** The lowest byte and the rest of a number whose rest is given in two parts. */
  lemma SplitLowByte(x: nat, lo: nat, limit: nat)
    requires lo < 256 * limit
    ensures (256 * x + lo) / 256 == x + lo / 256 && (256 * x + lo) % 256 == lo % 256 && lo / 256 < limit
  {
    var q, r := lo / 256, lo % 256;
    assert lo == 256 * q + r;
    QuotientOf(x + q, r);
  }

  lemma QuotientOf(q: nat, r: nat)
    requires r < 256
    ensures (256 * q + r) / 256 == q && (256 * q + r) % 256 == r
  {
  }

  lemma Reassociate(high: nat, p: nat)
    ensures high * (256 * p) == 256 * (high * p)
  {
  }

  lemma {:induction false} LittleEndianSplit(lo: nat, high: nat, k: nat)
    requires lo < Power256(k)
    ensures LittleEndian(high * Power256(k) + lo, k + 4) == LittleEndian(lo, k) + LittleEndian(high, 4)
    decreases k
  {
    if k > 0 {
      var p := Power256(k - 1);
      Reassociate(high, p);
      SplitLowByte(high * p, lo, p);
      LittleEndianSplit(lo / 256, high, k - 1);
    }
  }

  lemma LittleEndianHalves(lo: nat, high: nat)
    requires lo < WORD && high < WORD
    ensures LittleEndian(high * WORD + lo, 8) == LittleEndian(lo, 4) + LittleEndian(high, 4)
  {
    assert Power256(1) == 256 && Power256(2) == 0x1_0000 && Power256(3) == 0x100_0000;
    assert Power256(4) == WORD;
    LittleEndianSplit(lo, high, 4);
  }

  lemma LittleEndianFour(v: nat)
    ensures LittleEndian(v, 4) == FourBytes(v)
  {
    var v1, v2, v3 := v / 256, v / 0x1_0000, v / 0x100_0000;
    assert v1 / 256 == v2 && v2 / 256 == v3;
    assert LittleEndian(v3, 1) == [v3 % 256];
    assert LittleEndian(v2, 2) == [v2 % 256] + LittleEndian(v3, 1);
    assert LittleEndian(v1, 3) == [v1 % 256] + LittleEndian(v2, 2);
  }

  lemma HighBytes(q: nat)
    ensures FourBytes(q % WORD) == FourBytes(q % ULONG)
  {
    var high, hi := q % WORD, q % ULONG;
    var k := q / ULONG;
    assert q == k * ULONG + hi;
    var t := hi / WORD;
    assert hi == t * WORD + hi % WORD;
    assert q == (k * WORD + t) * WORD + hi % WORD;
    assert high == hi % WORD;
    ByteOfSum(t, high);
  }

  lemma ByteOfSum(t: nat, high: nat)
    ensures FourBytes(t * WORD + high) == FourBytes(high)
  {
    var hi := t * WORD + high;
    Mod256(t * 0x100_0000, high);
    assert hi / 0x100 == t * 0x1_0000 * 256 + high / 0x100;
    Mod256(t * 0x1_0000, high / 0x100);
    assert hi / 0x1_0000 == t * 0x100 * 256 + high / 0x1_0000;
    Mod256(t * 0x100, high / 0x1_0000);
    assert hi / 0x100_0000 == t * 256 + high / 0x100_0000;
    Mod256(t, high / 0x100_0000);
  }

  lemma Mod256(a: nat, b: nat)
    ensures (a * 256 + b) % 256 == b % 256
  {
  }

  function Concat(chunks: seq<seq<byte>>): seq<byte> {
    if chunks == [] then [] else Concat(chunks[..|chunks| - 1]) + chunks[|chunks| - 1]
  }

  /** The digest of a message handed over in any number of pieces is the digest of the message. */
  method DigestOf<R>(m: Machine<R>, chunks: seq<seq<byte>>) returns (result: seq<byte>)
    requires forall chunk :: chunk in chunks ==> |chunk| < ULONG
    ensures result == Hash(m, Concat(chunks))
  {
    var ctx := new Context(m);
    for i := 0 to |chunks|
      invariant fresh(ctx) && fresh(ctx.buffer) && ctx.m == m
      invariant ctx.Valid() && ctx.msg == Concat(chunks[..i])
    {
      assert chunks[..i + 1][..i] == chunks[..i];
      ctx.Update(chunks[i]);
    }
    assert chunks[..|chunks|] == chunks;
    result := ctx.Final();
  }
}
