/**
 Reading a TAR archive from a block device: the octal numbers in its headers, and the block-buffered read of a
 file's bytes, proved against the disk seen as one flat sequence of bytes.
 */
module TarFiles {
  import opened MachineBytes
  import opened Powers

  const BLOCK_SIZE := 512

  // ---------- octal numbers ----------

  const ZERO := 48

  /** What a character contributes; the source's characters are signed. */
  function Digit(c: Byte): int {
    (if c < 128 then c else c - 256) - ZERO
  }

  /** A character is its byte as a signed 8-bit number, counted from the character zero. */
  lemma DigitSigned(c: Byte)
    ensures -128 <= Digit(c) + 48 < 128 && (Digit(c) + 48) % 256 == c
  {
  }

  /** The number written in octal digits, most significant first. */
  function Octal(s: seq<Byte>): int {
    if s == [] then 0 else 8 * Octal(s[..|s| - 1]) + Digit(s[|s| - 1])
  }

  /** What the driver makes of a numeric field: it never looks at the first character. */
  function OctalValue(data: seq<Byte>): nat {
    if data == [] then 0 else Octal(data[1..]) % UINT_LIMIT
  }

  lemma {:induction false} OctalCons(c: Byte, t: seq<Byte>)
    ensures Octal([c] + t) == Digit(c) * Pow2(3 * |t|) + Octal(t)
  {
    hide Digit;
    if t == [] {
      assert [c][..0] == [];
    } else {
      var t' := t[..|t| - 1];
      assert ([c] + t)[..|t|] == [c] + t';
      OctalCons(c, t');
      assert Pow2(3 * |t|) == 8 * Pow2(3 * |t'|) by {
        Pow2Add(3, 3 * |t'|);
        assert Pow2(3) == 8;
      }
      TimesEight(Digit(c), Pow2(3 * |t'|));
    }
  }

  lemma TimesEight(a: int, b: int)
    ensures 8 * (a * b) == a * (8 * b)
  {
  }

  /** Reducing a summand and a factor first does not change the remainder. */
  lemma ReducedFirst(a: int, f: int, d: int)
    ensures (a % UINT_LIMIT + (f % UINT_LIMIT) * d) % UINT_LIMIT == (a + f * d) % UINT_LIMIT
  {
    var qa, qf := a / UINT_LIMIT, f / UINT_LIMIT;
    var r := a % UINT_LIMIT + (f % UINT_LIMIT) * d;
    assert f * d == (f % UINT_LIMIT) * d + UINT_LIMIT * (qf * d) by {
      Expand(f % UINT_LIMIT, UINT_LIMIT, qf, d);
    }
    assert a + f * d == r + UINT_LIMIT * (qa + qf * d);
    SameRemainder(r, qa + qf * d);
  }

  lemma Expand(r: int, u: int, q: int, d: int)
    ensures (r + u * q) * d == r * d + u * (q * d)
  {
  }

  lemma SameRemainder(r: int, q: int)
    ensures (r + UINT_LIMIT * q) % UINT_LIMIT == r % UINT_LIMIT
  {
  }

  /** Converts a null-terminated octal field, from its end towards the second character, in 32-bit arithmetic. */
  method Octal2ui(data: seq<Byte>) returns (value: nat)
    ensures value == OctalValue(data) == if data == [] then 0 else Octal(data[1..]) % 0x1_0000_0000
  {
    hide Octal, Pow2, Digit;
    value := 0;
    var len := |data|;
    var i, factor := 1, 1;
    EmptyOctal();
    assert len > 0 ==> data[len..] == [];
    while i < len
      invariant 1 <= i && (i <= len || len == 0) && factor == Pow2(3 * (i - 1)) % UINT_LIMIT
      invariant len == 0 ==> value == 0
      invariant len > 0 ==> value == Octal(data[len - i + 1..]) % UINT_LIMIT
    {
      var ch := data[len - i];
      OctalStep(ch, data[len - i + 1..], i);
      assert data[len - i..] == [ch] + data[len - i + 1..];
      value := (value + factor * Digit(ch)) % UINT_LIMIT;
      factor := factor * 8 % UINT_LIMIT;
      i := i + 1;
    }
  }

  lemma EmptyOctal()
    ensures Octal([]) == 0 && Pow2(0) == 1
  {
  }

  /** One more digit in front of t, whose weight is the i-th factor. */
  lemma OctalStep(ch: Byte, t: seq<Byte>, i: nat)
    requires i >= 1 && |t| == i - 1
    ensures var f := Pow2(3 * (i - 1)) % UINT_LIMIT;
            (Octal(t) % UINT_LIMIT + f * Digit(ch)) % UINT_LIMIT == Octal([ch] + t) % UINT_LIMIT
            && f * 8 % UINT_LIMIT == Pow2(3 * i) % UINT_LIMIT
  {
    hide Octal, Pow2, Digit;
    var f := Pow2(3 * (i - 1));
    OctalCons(ch, t);
    Commute(Digit(ch), f);
    ReducedFirst(Octal(t), f, Digit(ch));
    NextFactor(i);
  }

  lemma Commute(a: int, b: int)
    ensures a * b == b * a
  {
  }

  lemma NextFactor(i: nat)
    requires i >= 1
    ensures Pow2(3 * (i - 1)) % UINT_LIMIT * 8 % UINT_LIMIT == Pow2(3 * i) % UINT_LIMIT
  {
    hide Pow2;
    Pow2Add(3, 3 * (i - 1));
    Pow2Three();
    ReducedFirst(0, Pow2(3 * (i - 1)), 8);
  }

  lemma Pow2Three()
    ensures Pow2(3) == 8
  {
  }

  /** The driver reads a field as the number it writes iff the weight of the first digit is a multiple of 2^32. */
  lemma OctalExact(data: seq<Byte>)
    requires data != []
    ensures OctalValue(data) == Octal(data) % UINT_LIMIT <==>
      (Digit(data[0]) * Pow2(3 * (|data| - 1))) % UINT_LIMIT == 0
  {
    hide Octal, Pow2, Digit;
    var t := data[1..];
    assert data == [data[0]] + t;
    OctalCons(data[0], t);
    var w := Digit(data[0]) * Pow2(3 * |t|);
    SumRemainder(w, Octal(t));
  }

  lemma SumRemainder(w: int, a: int)
    ensures (w + a) % UINT_LIMIT == a % UINT_LIMIT <==> w % UINT_LIMIT == 0
  {
  }

  /** So a leading zero is enough, and a field of a single digit is read as zero. */
  lemma OctalExamples(t: seq<Byte>)
    ensures OctalValue([ZERO] + t) == Octal([ZERO] + t) % UINT_LIMIT
    ensures OctalValue([ZERO + 7]) == 0 && Octal([ZERO + 7]) == 7
  {
    OctalExact([ZERO] + t);
    assert [ZERO + 7][..0] == [] && [ZERO + 7][1..] == [];
  }

  // ---------- the disk ----------

  class BlockDevice {
    const blocks: seq<seq<Byte>>
    /** Blocks the hardware fails to read. */
    const bad: set<nat>

    ghost predicate Valid() {
      |blocks| < 0x8000_0000 && forall i :: 0 <= i < |blocks| ==> |blocks[i]| == BLOCK_SIZE
    }

    predicate Readable(b: nat) {
      b < |blocks| && b !in bad
    }

    constructor (blocks: seq<seq<Byte>>, bad: set<nat>)
      requires |blocks| < 0x8000_0000 && forall i :: 0 <= i < |blocks| ==> |blocks[i]| == BLOCK_SIZE
      ensures Valid() && this.blocks == blocks && this.bad == bad
    {
      this.blocks, this.bad := blocks, bad;
    }

    /** Reads one block into the buffer; a failure leaves it alone. */
    method ReadBlock(buffer: array<Byte>, b: nat) returns (ok: bool)
      requires Valid() && buffer.Length == BLOCK_SIZE
      modifies buffer
      ensures ok <==> Readable(b)
      ensures buffer[..] == if ok then blocks[b] else old(buffer[..])
    {
      ok := Readable(b);
      if ok {
        for i := 0 to BLOCK_SIZE
          invariant buffer[..i] == blocks[b][..i]
        {
          buffer[i] := blocks[b][i];
        }
        assert buffer[..BLOCK_SIZE] == buffer[..];
      }
    }

    /** The disk as one sequence of bytes. */
    ghost function DiskByte(a: nat): Byte
      requires Valid() && a / BLOCK_SIZE < |blocks|
    {
      blocks[a / BLOCK_SIZE][a % BLOCK_SIZE]
    }
  }

  // ---------- files ----------

  /** An open file: its data start in a block of their own. */
  class InternalFile {
    const device: BlockDevice
    const startBlock: nat
    const size: nat

    ghost predicate Valid() {
      device.Valid() && startBlock <= |device.blocks| && size < UINT_LIMIT
    }

    constructor (device: BlockDevice, startBlock: nat, size: nat)
      requires device.Valid() && startBlock <= |device.blocks| && size < UINT_LIMIT
      ensures Valid() && this.device == device && this.startBlock == startBlock && this.size == size
    {
      this.device, this.startBlock, this.size := device, startBlock, size;
    }

    /** The disk position of the file's byte k. */
    ghost function Position(k: nat): nat { startBlock * BLOCK_SIZE + k }

    /** The block of byte k can be read. */
    ghost predicate Reachable(k: nat) {
      device.Readable(startBlock + k / BLOCK_SIZE)
    }

    /**
     A read from within the file asks for more than the file has, and the blocks up to the end and one byte on are
     good.
     */
    ghost predicate ReadsPastEnd(off: nat, count: nat) {
      off < size < off + count && forall k {:trigger Reachable(k)} :: off <= k <= size ==> Reachable(k)
    }

    /**
     Reads count bytes from offset off on, block by block. From an offset in the file it delivers the disk's bytes
     until the count is reached or a block cannot be read;
       whether that goes past the end of the file can be told before.
     */
    method Pread(buffer: array<Byte>, count: nat, off: nat) returns (n: nat)
      requires Valid() && count <= buffer.Length && count < 0x8000_0000
      modifies buffer
      ensures n <= count && (off >= size ==> n == 0)
      ensures off < size && off + n > size <==> ReadsPastEnd(off, count)
      ensures off < size && n < count ==> (n == 0 || (off + n) % BLOCK_SIZE == 0) && !Reachable(off + n)
      ensures forall i {:trigger Delivered(buffer, off, i)} :: 0 <= i < n ==> Delivered(buffer, off, i)
      ensures forall i :: n <= i < buffer.Length ==> buffer[i] == old(buffer[i])
    {
      n := 0;
      if off >= size {
        return;
      }
      var local := new Byte[BLOCK_SIZE](_ => 0);
      var pos := off;
      while n < count
        invariant n <= count && pos == off + n && (n == 0 || pos % BLOCK_SIZE == 0 || n == count)
        invariant forall i {:trigger Delivered(buffer, off, i)} :: 0 <= i < n ==> Delivered(buffer, off, i)
        invariant forall i :: n <= i < buffer.Length ==> buffer[i] == old(buffer[i])
      {
        var block, within := pos / BLOCK_SIZE, pos % BLOCK_SIZE;
        var ok := device.ReadBlock(local, startBlock + block);
        if !ok {
          break;
        }
        var chunk := if BLOCK_SIZE - within < count - n then BLOCK_SIZE - within else count - n;
        label L:
        CopyChunk(buffer, n, local, within, chunk);
        forall i | 0 <= i < n + chunk
          ensures Delivered(buffer, off, i)
        {
          if i >= n {
            SamePlace(pos, within, i - n);
            assert local[..][within + (i - n)] == buffer[i];
          } else {
            assert old@L(Delivered(buffer, off, i));
          }
        }
        BlockEnd(pos);
        n := n + chunk;
        pos := pos + chunk;
      }
      AllReached(buffer, off, n);
      if n < count && off + n <= size {
        assert !Reachable(off + n);
      }
    }

    /** The blocks of all the bytes delivered can be read. */
    lemma AllReached(buffer: array<Byte>, off: nat, n: nat)
      requires Valid() && n <= buffer.Length
      requires forall i {:trigger Delivered(buffer, off, i)} :: 0 <= i < n ==> Delivered(buffer, off, i)
      ensures forall k {:trigger Reachable(k)} :: off <= k < off + n ==> Reachable(k)
    {
      forall k | off <= k < off + n
        ensures Reachable(k)
      {
        assert Delivered(buffer, off, k - off);
      }
    }

    /** Entry i of the buffer is the file's byte off + i as it is on the disk. */
    ghost predicate Delivered(buffer: array<Byte>, off: nat, i: nat)
      requires Valid() && i < buffer.Length
      reads buffer
    {
      Reachable(off + i) && Position(off + i) / BLOCK_SIZE < |device.blocks|
        && buffer[i] == device.DiskByte(Position(off + i))
    }

    lemma BlockEnd(pos: nat)
      ensures (pos + (BLOCK_SIZE - pos % BLOCK_SIZE)) % BLOCK_SIZE == 0
    {
      assert pos + (BLOCK_SIZE - pos % BLOCK_SIZE) == (pos / BLOCK_SIZE + 1) * BLOCK_SIZE;
    }

    /** Byte k behind pos in the same block. */
    lemma SamePlace(pos: nat, within: nat, k: nat)
      requires within == pos % BLOCK_SIZE && within + k < BLOCK_SIZE
      ensures (pos + k) / BLOCK_SIZE == pos / BLOCK_SIZE
      ensures Position(pos + k) / BLOCK_SIZE == startBlock + pos / BLOCK_SIZE
        && Position(pos + k) % BLOCK_SIZE == within + k
    {
    }
  }

  lemma PastEndExample(f: InternalFile)
    requires f.Valid() && f.startBlock == 0 && f.size == 10 && f.device.Readable(0)
    ensures f.ReadsPastEnd(0, BLOCK_SIZE) && !f.ReadsPastEnd(0, 10)
  {
  }

  /** A file of ten bytes on a disk of one block: reading 512 bytes from its start gives all of the block. */
  method ReadPastEnd(block: seq<Byte>, buffer: array<Byte>) returns (n: nat)
    requires |block| == BLOCK_SIZE == buffer.Length
    modifies buffer
    ensures n == BLOCK_SIZE && buffer[..] == block
  {
    var device := new BlockDevice([block], {});
    var f := new InternalFile(device, 0, 10);
    PastEndExample(f);
    assert forall k {:trigger f.Reachable(k)} :: 0 <= k < BLOCK_SIZE ==> f.Reachable(k);
    n := f.Pread(buffer, BLOCK_SIZE, 0);
    forall i | 0 <= i < BLOCK_SIZE
      ensures buffer[i] == block[i]
    {
      assert f.Delivered(buffer, 0, i);
    }
  }

  /** memcpy of m bytes. */
  method CopyChunk(to: array<Byte>, at: nat, from: array<Byte>, start: nat, m: nat)
    requires to != from && at + m <= to.Length && start + m <= from.Length
    modifies to
    ensures forall i :: 0 <= i < to.Length ==> to[i] == if at <= i < at + m then from[start + i - at] else old(to[i])
  {
    for k := 0 to m
      invariant forall i :: 0 <= i < to.Length ==>
        to[i] == if at <= i < at + k then from[start + i - at] else old(to[i])
    {
      to[at + k] := from[start + k];
    }
  }
}
