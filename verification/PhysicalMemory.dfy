/** Physical memory as an array of bytes, with the little-endian 64-bit words the page tables are made of. */
module PhysicalMemory {
  import opened MachineBytes
  import opened Powers

  /** The number whose little-endian bytes are s. */
  function Word(s: seq<Byte>): nat {
    if s == [] then 0 else s[0] + 256 * Word(s[1..])
  }

  /** The n low bytes of w, lowest first. */
  function Bytes(w: nat, n: nat): (s: seq<Byte>)
    ensures |s| == n
  {
    if n == 0 then [] else [w % 256] + Bytes(w / 256, n - 1)
  }

  lemma {:induction false} WordOfBytes(w: nat, n: nat)
    requires w < Pow2(8 * n)
    ensures Word(Bytes(w, n)) == w
  {
    if n > 0 {
      assert Pow2(8 * n) == 256 * Pow2(8 * (n - 1)) by {
        Pow2Add(8, 8 * (n - 1));
        Pow2Values();
      }
      var s := Bytes(w, n);
      assert s[1..] == Bytes(w / 256, n - 1);
      WordOfBytes(w / 256, n - 1);
    }
  }

  lemma {:induction false} WordOfZeros(s: seq<Byte>)
    requires forall i :: 0 <= i < |s| ==> s[i] == 0
    ensures Word(s) == 0
  {
    if s != [] {
      WordOfZeros(s[1..]);
    }
  }

  /** The word at address a. */
  function Load(mem: array<Byte>, a: nat): nat
    requires a + 8 <= mem.Length
    reads mem
  {
    Word(mem[a..a + 8])
  }

  /** The lowest byte comes first. */
  lemma LittleEndian(mem: array<Byte>, a: nat)
    requires a + 8 <= mem.Length
    ensures var b := (k: nat) requires k < 8 reads mem => mem[a + k] as int;
            Load(mem, a) == b(0) + 0x100 * b(1) + 0x1_0000 * b(2) + 0x100_0000 * b(3) + 0x1_0000_0000 * b(4)
                            + 0x100_0000_0000 * b(5) + 0x1_0000_0000_0000 * b(6) + 0x100_0000_0000_0000 * b(7)
  {
    WordRest(mem[a..a + 8]);
    WordRest(mem[a + 1..a + 8]);
    WordRest(mem[a + 2..a + 8]);
    WordRest(mem[a + 3..a + 8]);
    WordRest(mem[a + 4..a + 8]);
    WordRest(mem[a + 5..a + 8]);
    WordRest(mem[a + 6..a + 8]);
    WordRest(mem[a + 7..a + 8]);
    hide Word;
    assert mem[a..a + 8][1..] == mem[a + 1..a + 8] && mem[a + 1..a + 8][1..] == mem[a + 2..a + 8];
    assert mem[a + 2..a + 8][1..] == mem[a + 3..a + 8] && mem[a + 3..a + 8][1..] == mem[a + 4..a + 8];
    assert mem[a + 4..a + 8][1..] == mem[a + 5..a + 8] && mem[a + 5..a + 8][1..] == mem[a + 6..a + 8];
    assert mem[a + 6..a + 8][1..] == mem[a + 7..a + 8] && mem[a + 7..a + 8][1..] == [];
  }

  lemma WordRest(s: seq<Byte>)
    requires s != []
    ensures Word(s) == s[0] + 256 * Word(s[1..]) && Word([]) == 0
  {
  }

  method Store(mem: array<Byte>, a: nat, w: nat)
    requires a + 8 <= mem.Length && a % 8 == 0 && w < SIZE_LIMIT
    modifies mem
    ensures Load(mem, a) == w
    ensures forall i :: 0 <= i < mem.Length && !(a <= i < a + 8) ==> mem[i] == old(mem[i])
    ensures forall b {:trigger Load(mem, b)} :: 0 <= b && b + 8 <= mem.Length && b % 8 == 0 && b != a ==>
      Load(mem, b) == old(Load(mem, b))
  {
    hide Word, Bytes, Pow2;
    var s := Bytes(w, 8);
    Pow2Values();
    WordOfBytes(w, 8);
    for k := 0 to 8
      invariant forall i :: 0 <= i < mem.Length ==> mem[i] == if a <= i < a + k then s[i - a] else old(mem[i])
    {
      mem[a + k] := s[k];
    }
    assert mem[a..a + 8] == s;
    forall b: nat | b + 8 <= mem.Length && b % 8 == 0 && b != a
      ensures Load(mem, b) == old(Load(mem, b))
    {
      assert mem[b..b + 8] == old(mem[b..b + 8]);
    }
  }

  /** Clears n bytes from address a on. */
  method Zero(mem: array<Byte>, a: nat, n: nat)
    requires a + n <= mem.Length && a % 8 == 0 && n % 8 == 0
    modifies mem
    ensures forall i :: 0 <= i < mem.Length ==> mem[i] == if a <= i < a + n then 0 else old(mem[i])
    ensures forall b {:trigger Load(mem, b)} :: 0 <= b && b + 8 <= mem.Length && b % 8 == 0 ==>
              Load(mem, b) == if a <= b < a + n then 0 else old(Load(mem, b))
  {
    for k := 0 to n
      invariant forall i :: 0 <= i < mem.Length ==> mem[i] == if a <= i < a + k then 0 else old(mem[i])
    {
      mem[a + k] := 0;
    }
    forall b: nat | b + 8 <= mem.Length && b % 8 == 0
      ensures Load(mem, b) == if a <= b < a + n then 0 else old(Load(mem, b))
    {
      if a <= b < a + n {
        WordOfZeros(mem[b..b + 8]);
      } else {
        assert mem[b..b + 8] == old(mem[b..b + 8]);
      }
    }
  }

  /** Copies src to address a. */
  method Copy(mem: array<Byte>, a: nat, src: seq<Byte>)
    requires a + |src| <= mem.Length
    modifies mem
    ensures forall i :: 0 <= i < mem.Length ==> mem[i] == if a <= i < a + |src| then src[i - a] else old(mem[i])
    ensures forall b {:trigger Load(mem, b)} :: 0 <= b && b + 8 <= mem.Length && (b + 8 <= a || a + |src| <= b) ==>
              Load(mem, b) == old(Load(mem, b))
  {
    for k := 0 to |src|
      invariant forall i :: 0 <= i < mem.Length ==> mem[i] == if a <= i < a + k then src[i - a] else old(mem[i])
    {
      mem[a + k] := src[k];
    }
    forall b: nat | b + 8 <= mem.Length && (b + 8 <= a || a + |src| <= b)
      ensures Load(mem, b) == old(Load(mem, b))
    {
      assert mem[b..b + 8] == old(mem[b..b + 8]);
    }
  }

  // ---------- pages of entries ----------

  const PAGE_SIZE := 0x1000
  const ENTRIES := 512

  /** The address of entry i of the table in page p. */
  function EntryAddress(p: nat, i: nat): nat { p * PAGE_SIZE + 8 * i }

  ghost predicate InMemory(mem: array<Byte>, p: int) {
    0 <= p && (p + 1) * PAGE_SIZE <= mem.Length
  }

  /** Entry i of page p. */
  ghost function WordAt(mem: array<Byte>, p: nat, i: nat): nat
    requires InMemory(mem, p) && i < ENTRIES
    reads mem
  {
    Load(mem, EntryAddress(p, i))
  }

  /** Byte k of page p. */
  ghost function ByteAt(mem: array<Byte>, p: int, k: int): Byte
    requires InMemory(mem, p) && 0 <= k < PAGE_SIZE
    reads mem
  {
    mem[p * PAGE_SIZE + k]
  }

  lemma EntryAligned(p: nat, i: nat)
    ensures EntryAddress(p, i) % 8 == 0
  {
    assert EntryAddress(p, i) == 8 * (512 * p + i);
  }

  lemma EntryInjective(p: nat, i: nat, q: nat, j: nat)
    requires i < ENTRIES && j < ENTRIES
    ensures EntryAddress(p, i) == EntryAddress(q, j) <==> p == q && i == j
  {
  }

  lemma EntryAt(mem: array<Byte>, p: nat, i: nat)
    requires InMemory(mem, p) && i < ENTRIES
    ensures EntryAddress(p, i) + 8 <= mem.Length && Load(mem, EntryAddress(p, i)) == WordAt(mem, p, i)
  {
  }

  /** Writes the entry at address e, which is entry i of page p. */
  method StoreEntry(mem: array<Byte>, e: nat, w: nat, ghost p: nat, ghost i: nat)
    requires InMemory(mem, p) && i < ENTRIES && e == EntryAddress(p, i) && w < SIZE_LIMIT
    modifies mem
    ensures WordAt(mem, p, i) == w
    ensures forall q: nat, j: nat {:trigger WordAt(mem, q, j)} ::
      InMemory(mem, q) && j < ENTRIES && !(q == p && j == i) ==>
              WordAt(mem, q, j) == old(WordAt(mem, q, j))
    ensures forall q, k {:trigger ByteAt(mem, q, k)} :: InMemory(mem, q) && 0 <= k < PAGE_SIZE && q != p ==>
              ByteAt(mem, q, k) == old(ByteAt(mem, q, k))
  {
    hide Load;
    EntryAligned(p, i);
    Store(mem, e, w);
    forall q: nat, j: nat | InMemory(mem, q) && j < ENTRIES && !(q == p && j == i)
      ensures WordAt(mem, q, j) == old(WordAt(mem, q, j))
    {
      EntryAligned(q, j);
      EntryInjective(p, i, q, j);
    }
  }

  /** Clears n pages from pgd on. */
  method ClearPages(mem: array<Byte>, pgd: nat, n: nat)
    requires (pgd + n) * PAGE_SIZE <= mem.Length
    modifies mem
    ensures forall q: nat, j: nat {:trigger WordAt(mem, q, j)} :: InMemory(mem, q) && j < ENTRIES ==>
              WordAt(mem, q, j) == if pgd <= q < pgd + n then 0 else old(WordAt(mem, q, j))
    ensures forall q, k {:trigger ByteAt(mem, q, k)} :: InMemory(mem, q) && 0 <= k < PAGE_SIZE ==>
              ByteAt(mem, q, k) == if pgd <= q < pgd + n then 0 else old(ByteAt(mem, q, k))
  {
    hide Load;
    assert pgd * PAGE_SIZE % 8 == 0 && n * PAGE_SIZE % 8 == 0 by {
      EntryAligned(pgd, 0);
      EntryAligned(n, 0);
    }
    Zero(mem, pgd * PAGE_SIZE, n * PAGE_SIZE);
    forall q: nat, j: nat | InMemory(mem, q) && j < ENTRIES
      ensures WordAt(mem, q, j) == if pgd <= q < pgd + n then 0 else old(WordAt(mem, q, j))
    {
      EntryAligned(q, j);
    }
  }
}
