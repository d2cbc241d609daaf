/** The checker's word map is a little-endian byte memory for every aligned access. */
module ByteMemory {
  import opened Bits
  import opened Isa
  import opened Machine
  import opened Checker
  import opened Refinement

  /** The n bytes from address a, least significant first. */
  function LittleEndian(mem: Memory, a: int, n: nat): nat
    decreases n
  {
    if n == 0 then 0 else mem(a) + 256 * LittleEndian(mem, a + 1, n - 1)
  }

  lemma UpToFour(mem: Memory, a: int)
    ensures LittleEndian(mem, a, 1) == mem(a)
    ensures LittleEndian(mem, a, 2) == mem(a) + 256 * mem(a + 1)
    ensures LittleEndian(mem, a, 4) == WordAt(mem, a)
  {
    assert LittleEndian(mem, a + 1, 1) == mem(a + 1) + 256 * LittleEndian(mem, a + 1 + 1, 0);
    assert LittleEndian(mem, a + 1, 3) == mem(a + 1) + 256 * LittleEndian(mem, a + 1 + 1, 2);
    assert LittleEndian(mem, a + 2, 2) == mem(a + 2) + 256 * LittleEndian(mem, a + 2 + 1, 1);
  }

  lemma WordAtBytes(mem: Memory, base: int, k: nat)
    requires k < 4
    ensures ByteOf(WordAt(mem, base), k) == mem(base + k)
  {
    hide ByteOf;
    BytesWord(mem(base), mem(base + 1), mem(base + 2), mem(base + 3));
  }

  /** An aligned load of n bytes reads their little-endian value, sign- or zero-extended. */
  lemma AlignedLoad(mem: Memory, size: Size, signExtend: bool, a: int)
    requires NaturallyAligned(size, a)
    ensures var v := LittleEndian(mem, a, Bytes(size));
            LoadValue(size, signExtend, WordAt(mem, a - a % 4), a % 4)
            == if size.OneByte? then Extend(signExtend, v, 0x80)
               else if size.HalfWord? then Extend(signExtend, v, 0x8000)
               else v
  {
    hide ByteOf, Extend, WordAt;
    var base, off := a - a % 4, a % 4;
    UpToFour(mem, a);
    WordAtBytes(mem, base, off);
    if size.HalfWord? {
      assert off == 0 || off == 2;
      WordAtBytes(mem, base, off + 1);
    }
  }

  /** Extension keeps the value modulo its width, and the sign bit when signed. */
  lemma ExtendMeaning(v: nat, sign: nat)
    requires (sign == 0x80 || sign == 0x8000) && v < 2 * sign
    ensures Extend(false, v, sign) == v
    ensures S32(Extend(true, v, sign)) == if v >= sign then v - 2 * sign else v
  {
  }

  /** An aligned store writes exactly its bytes. */
  lemma AlignedStore(mem: Memory, size: Size, a: word, v: word, b: int)
    requires NaturallyAligned(size, a)
    ensures StoreBytes(mem, size, a, v)(b) == if a <= b < a + Bytes(size) then ByteOf(v, b - a) else mem(b)
  {
    hide ByteOf;
    InsideWord(size, a);
  }

  lemma InsideWord(size: Size, a: int)
    requires NaturallyAligned(size, a)
    ensures a % 4 + Bytes(size) <= 4
  {
    HalfOfWord(a);
  }

  lemma HalfOfWord(a: int)
    ensures a % 2 == 0 ==> a % 4 == 0 || a % 4 == 2
  {
    var q, r := a / 4, a % 4;
    assert a == 2 * (2 * q) + r;
    if r == 1 || r == 3 {
      assert a == 2 * (2 * q + r / 2) + 1;
    }
  }

  /** Loading back what an aligned store wrote gives its low bytes. */
  lemma StoreThenLoad(mem: Memory, size: Size, a: word, v: word)
    requires NaturallyAligned(size, a)
    ensures LittleEndian(StoreBytes(mem, size, a, v), a, Bytes(size))
         == if size.OneByte? then v % 0x100 else if size.HalfWord? then v % 0x1_0000 else v
  {
    hide ByteOf, StoreBytes, WordOf;
    var after := StoreBytes(mem, size, a, v);
    AlignedStore(mem, size, a, v, a);
    AlignedStore(mem, size, a, v, a + 1);
    AlignedStore(mem, size, a, v, a + 2);
    AlignedStore(mem, size, a, v, a + 3);
    UpToFour(after, a);
    WordBytes(v);
    LowBytes(v);
  }

  lemma LowBytes(v: word)
    ensures ByteOf(v, 0) == v % 0x100 && ByteOf(v, 0) + 256 * ByteOf(v, 1) == v % 0x1_0000
  {
    var h := v / 256;
    DivUnique(v, 0x1_0000, h / 256, 256 * (h % 256) + v % 256);
  }

  /** The lane-merge loop of an accepted aligned store: its bytes change, every other byte
      of the word map stays. */
  lemma CheckerStore(words: map<int, word>, size: Size, p: word, wdata: word, b: int)
    requires NaturallyAligned(size, p)
    ensures var base := p - p % 4;
            var m := MergedLanes(Get(words, base), wdata, LaneMask(size, p % 4), p % 4, 4);
            m.Some? && ImageByte(words[base := m.value], b)
                       == if p <= b < p + Bytes(size) then ByteOf(wdata, b - p) else ImageByte(words, b)
  {
    hide ByteOf, MergedLanes, ImageByte, Get, LaneMask;
    var mem: Memory := (c: int) => ImageByte(words, c);
    StoreMatches(words, mem, size, p, wdata);
    AlignedStore(mem, size, p, wdata, b);
  }

  /** The shift and extension of an accepted aligned load: the little-endian value of its bytes. */
  lemma CheckerLoad(words: map<int, word>, funct3: nat, p: word)
    requires DecodeSize(funct3).Some? && funct3 < 6
    requires NaturallyAligned(DecodeSize(funct3).value, p)
    ensures var size := DecodeSize(funct3).value;
            var v := LittleEndian((c: int) => ImageByte(words, c), p, Bytes(size));
            LoadedValue(funct3, Get(words, p - p % 4), p % 4)
            == if size.OneByte? then Extend(funct3 < 4, v, 0x80)
               else if size.HalfWord? then Extend(funct3 < 4, v, 0x8000)
               else v
  {
    hide LoadedValue, LoadValue, ImageByte, Get, WordAt, Extend;
    var mem: Memory := (c: int) => ImageByte(words, c);
    var base := p - p % 4;
    SameWord(words, mem, base);
    LoadedValueAgrees(funct3, Get(words, base), p % 4);
    AlignedLoad(mem, DecodeSize(funct3).value, funct3 < 4, p);
  }

  /** With no ranges configured, RAM is visible twice: x and x + 0x8000 name the same word. */
  lemma RamAlias(cfg: Config, x: word)
    requires cfg.externalRanges == [] && cfg.directRanges == [] && x < 0x8000
    ensures MemoryWordAddress(cfg, x) == MemoryWordAddress(cfg, x + 0x8000)
    ensures Physical(cfg, x) == Physical(cfg, x + 0x8000) == x
  {
    assert forall a: int :: !InRanges([], a);
  }
}
