/** 32-bit words, bytes and page-table entry bits (32-bit paging, section 4.3 of the Intel
    SDM volume 3A).  Words are integers below 2^32; the mask-and-shift forms of the code are
    related to the division forms used here by `LowBits` and `AndShifted`. */
module Words {
  type Word = w: int | 0 <= w < 0x1_0000_0000
  type Byte = b: int | 0 <= b < 0x100

  /** The value of an `unsigned int` after an assignment from any integer. */
  function U32(x: int): (r: Word)
    ensures 0 <= x < 0x1_0000_0000 ==> r == x
  {
    x % 0x1_0000_0000
  }

  /** The value of a 32-bit signed `int` (two's complement) after such an assignment. */
  function S32(x: int): (r: int)
    ensures -0x8000_0000 <= r < 0x8000_0000
    ensures -0x8000_0000 <= x < 0x8000_0000 ==> r == x
  {
    (x + 0x8000_0000) % 0x1_0000_0000 - 0x8000_0000
  }

  const PTE_P := 1
  const PTE_W := 2
  const PTE_U := 4
  const PTE_G := 0x100
  const P_SUPER := 0x200
  const PTE_COW := 0x800

  /** The low 12 bits of an entry. */
  function Perm(e: Word): (p: nat)
    ensures p < 4096
    ensures e < 4096 ==> p == e
  {
    e % 4096
  }

  predicate Present(e: Word) { Perm(e) % 2 == 1 }
  predicate Writable(e: Word) { (Perm(e) / 2) % 2 == 1 }
  predicate UserOk(e: Word) { (Perm(e) / 4) % 2 == 1 }
  predicate Super(e: Word) { (Perm(e) / 0x200) % 2 == 1 }
  predicate Cow(e: Word) { (Perm(e) / 0x800) % 2 == 1 }

  /** The page index held in an entry. */
  function Frame(e: Word): (f: nat)
    ensures f < 0x10_0000
  {
    e / 4096
  }

  /** The word `page_index * PAGESIZE + perm`. */
  function Entry(frame: nat, perm: nat): (e: Word)
  {
    U32(frame * 4096 + perm)
  }

  /** Packing a page index and 12 permission bits loses neither. */
  lemma EntryFields(frame: nat, perm: nat)
    requires frame < 0x10_0000 && perm < 4096
    ensures Entry(frame, perm) == frame * 4096 + perm
    ensures Frame(Entry(frame, perm)) == frame && Perm(Entry(frame, perm)) == Perm(perm) == perm
    ensures Present(Entry(frame, perm)) == Present(perm)
    ensures Writable(Entry(frame, perm)) == Writable(perm)
    ensures UserOk(Entry(frame, perm)) == UserOk(perm)
    ensures Super(Entry(frame, perm)) == Super(perm)
    ensures Cow(Entry(frame, perm)) == Cow(perm)
  {
    assert frame * 4096 + perm < 0x1_0000_0000;
  }

  /** The permission bits survive whatever the page index, which wraps at 2^20. */
  lemma EntryPerm(frame: nat, perm: nat)
    requires perm < 4096
    ensures Perm(Entry(frame, perm)) == perm && Present(Entry(frame, perm)) == Present(perm)
  {
    var x := frame * 4096 + perm;
    var q := x / 0x1_0000_0000;
    assert x == q * 0x1_0000_0000 + Entry(frame, perm);
    assert Entry(frame, perm) == 4096 * (frame - q * 0x10_0000) + perm;
  }

  /** Setting P_SUPER in a permission value: `perm | P_SUPER`. */
  function WithSuper(perm: nat): (r: nat)
    requires perm < 4096
    ensures r < 4096 && Super(r) && r % 0x200 == perm % 0x200 && r / 0x400 == perm / 0x400
    ensures Present(r) == Present(perm) && Writable(r) == Writable(perm) && UserOk(r) == UserOk(perm) && Cow(r) == Cow(perm)
  {
    if Super(perm) then perm
    else
      SuperAdded(perm);
      SameLowBits(perm, perm + P_SUPER);
      SameHighBits(perm, perm + P_SUPER);
      perm + P_SUPER
  }

  lemma SuperAdded(perm: nat)
    requires perm < 4096 && !Super(perm)
    ensures perm + P_SUPER < 4096 && Super(perm + P_SUPER)
    ensures (perm + P_SUPER) % 0x200 == perm % 0x200 && (perm + P_SUPER) / 0x400 == perm / 0x400
  {
    var k := perm / 0x200;
    assert k < 8 && k % 2 == 0;
    assert (perm + P_SUPER) / 0x200 == k + 1;
    assert perm / 0x400 == k / 2 && (perm + P_SUPER) / 0x400 == (k + 1) / 2;
  }

  lemma SameLowBits(x: nat, y: nat)
    requires x < 4096 && y < 4096 && x % 0x200 == y % 0x200
    ensures Present(x) == Present(y) && Writable(x) == Writable(y) && UserOk(x) == UserOk(y)
  {
    LowOf(x);
    LowOf(y);
  }

  lemma LowOf(x: nat)
    requires x < 4096
    ensures x % 2 == x % 0x200 % 2 && x / 2 % 2 == x % 0x200 / 2 % 2 && x / 4 % 2 == x % 0x200 / 4 % 2
  {
    var q, r := x / 0x200, x % 0x200;
    assert x == 2 * (256 * q) + r;
    HalfOfSum(128 * q, r);
    HalfOfSum(64 * q, r / 2);
    AddEven(128 * q, r / 2);
    AddEven(64 * q, r / 4);
  }

  lemma SameHighBits(x: nat, y: nat)
    requires x < 4096 && y < 4096 && x / 0x400 == y / 0x400
    ensures Cow(x) == Cow(y)
  {
    assert x / 0x800 == x / 0x400 / 2 && y / 0x800 == y / 0x400 / 2;
  }

  // ----- Masks and shifts

  /** Bitwise and of two unsigned words, bit by bit. */
  function BitAnd(x: nat, m: nat): (r: nat)
    ensures r <= m
    decreases x
  {
    if x == 0 || m == 0 then 0
    else 2 * BitAnd(x / 2, m / 2) + if x % 2 == 1 && m % 2 == 1 then 1 else 0
  }

  function ShiftRight(x: nat, k: nat): (r: nat)
    decreases k
  {
    if k == 0 then x else ShiftRight(x / 2, k - 1)
  }

  function ShiftLeft(x: nat, k: nat): (r: nat)
    decreases k
  {
    if k == 0 then x else 2 * ShiftLeft(x, k - 1)
  }

  /** The word whose low `n` bits are set. */
  function Ones(n: nat): (m: nat) {
    if n == 0 then 0 else 2 * Ones(n - 1) + 1
  }

  /** The low `n` bits are what a shift right by `n` drops. */
  lemma {:induction false} LowBits(x: nat, n: nat)
    ensures x == ShiftLeft(ShiftRight(x, n), n) + BitAnd(x, Ones(n))
    decreases n
  {
    if n > 0 {
      LowBits(x / 2, n - 1);
    }
  }

  /** A mask shifted left by `k` bits masks what remains after a shift right by as many. */
  lemma {:induction false} AndShifted(x: nat, m: nat, k: nat)
    ensures BitAnd(x, ShiftLeft(m, k)) == ShiftLeft(BitAnd(ShiftRight(x, k), m), k)
    decreases k
  {
    if k > 0 {
      AndShifted(x / 2, m, k - 1);
    }
  }

  lemma {:induction false} ShiftTwice(x: nat, j: nat, k: nat)
    ensures ShiftRight(x, j + k) == ShiftRight(ShiftRight(x, j), k)
    decreases j
  {
    if j > 0 {
      ShiftTwice(x / 2, j - 1, k);
    }
  }

  lemma Shift10(x: nat)
    ensures ShiftRight(x, 10) == x / 1024 && ShiftLeft(x, 10) == 1024 * x && Ones(10) == 1023
  {
    ShiftTwice(x, 5, 5);
    assert ShiftRight(x, 5) == x / 32;
    assert ShiftRight(x / 32, 5) == x / 32 / 32;
    assert x / 32 / 32 == x / 1024;
  }

  lemma Shift12(x: nat)
    ensures ShiftRight(x, 12) == x / 4096 && ShiftLeft(x, 12) == 4096 * x && Ones(12) == 4095
  {
    ShiftTwice(x, 10, 2);
    Shift10(x);
    assert ShiftRight(x / 1024, 2) == x / 1024 / 4 == x / 4096;
  }

  lemma Shift22(x: nat)
    ensures ShiftRight(x, 22) == x / 0x40_0000 && ShiftLeft(x, 22) == 0x40_0000 * x
  {
    ShiftTwice(x, 10, 12);
    Shift10(x);
    Shift12(x / 1024);
    assert x / 1024 / 4096 == x / 0x40_0000;
  }

  lemma TenBits(x: nat)
    ensures BitAnd(x, 1023) == x % 1024
  {
    hide BitAnd, ShiftRight, ShiftLeft, Ones;
    LowBits(x, 10);
    Shift10(x);
    Shift10(x / 1024);
  }

  lemma TwentyBits(x: nat)
    requires x < 0x10_0000
    ensures BitAnd(x, 0xF_FFFF) == x
  {
    OnesTwenty();
    ShiftOfZero(20);
    hide BitAnd, ShiftRight, ShiftLeft, Ones;
    LowBits(x, 20);
    ShiftTwice(x, 10, 10);
    Shift10(x);
    Shift10(x / 1024);
    assert x / 1024 / 1024 == 0;
  }

  lemma OnesTwenty()
    ensures Ones(20) == 0xF_FFFF
  {
    assert Ones(5) == 31;
    assert Ones(10) == 1023;
    assert Ones(15) == 0x7FFF;
  }

  /** The masks the code applies to entries. */
  lemma EntryMasks(e: Word)
    ensures BitAnd(e, 0xFFF) == Perm(e) && ShiftRight(e, 12) == Frame(e) && BitAnd(e, 0xFFFF_F000) == Frame(e) * 4096
  {
    hide BitAnd, ShiftRight, ShiftLeft, Ones;
    LowBits(e, 12);
    Shift12(e);
    Shift12(e / 4096);
    Shift12(0xF_FFFF);
    AndShifted(e, 0xF_FFFF, 12);
    TwentyBits(e / 4096);
  }

  lemma OneBit(x: nat, k: nat)
    ensures BitAnd(x, ShiftLeft(1, k)) != 0 <==> ShiftRight(x, k) % 2 == 1
  {
    AndShifted(x, 1, k);
    ShiftOfOne(k);
    var y := ShiftRight(x, k);
    assert BitAnd(y, 1) == y % 2 by {
      if y > 0 {
        assert BitAnd(y / 2, 0) == 0;
      }
    }
    assert ShiftLeft(0, k) == 0 by {
      ShiftOfZero(k);
    }
  }

  lemma {:induction false} ShiftOfOne(k: nat)
    ensures ShiftLeft(1, k) > 0
  {
    if k > 0 {
      ShiftOfOne(k - 1);
    }
  }

  lemma {:induction false} ShiftOfZero(k: nat)
    ensures ShiftLeft(0, k) == 0
  {
    if k > 0 {
      ShiftOfZero(k - 1);
    }
  }

  /** The bit tests of the code are the predicates of this model. */
  lemma BitTests(e: Word)
    ensures BitAnd(e, PTE_P) != 0 <==> Present(e)
    ensures BitAnd(e, PTE_W) != 0 <==> Writable(e)
    ensures BitAnd(e, PTE_U) != 0 <==> UserOk(e)
    ensures BitAnd(e, P_SUPER) != 0 <==> Super(e)
    ensures BitAnd(e, PTE_COW) != 0 <==> Cow(e)
  {
    SmallShifts(e);
    Shift9(e);
    Shift11(e);
    hide BitAnd, ShiftRight, ShiftLeft;
    OneBit(e, 0);
    OneBit(e, 1);
    OneBit(e, 2);
    OneBit(e, 9);
    OneBit(e, 11);
    LowBitsOfPerm(e);
    HighBitsOfPerm(e);
  }

  lemma SmallShifts(x: nat)
    ensures ShiftLeft(1, 0) == PTE_P && ShiftLeft(1, 1) == PTE_W && ShiftLeft(1, 2) == PTE_U
    ensures ShiftRight(x, 0) == x && ShiftRight(x, 1) == x / 2 && ShiftRight(x, 2) == x / 4
  {
  }

  lemma Shift9(x: nat)
    ensures ShiftLeft(1, 9) == P_SUPER && ShiftRight(x, 9) == x / 0x200
  {
    ShiftTwice(x, 5, 4);
    assert ShiftRight(x, 5) == x / 32;
    assert ShiftRight(x / 32, 4) == x / 32 / 16 == x / 0x200;
  }

  lemma Shift11(x: nat)
    ensures ShiftLeft(1, 11) == PTE_COW && ShiftRight(x, 11) == x / 0x800
  {
    ShiftTwice(x, 10, 1);
    Shift10(x);
    assert ShiftRight(x / 1024, 1) == x / 1024 / 2 == x / 0x800;
  }

  lemma LowBitsOfPerm(e: Word)
    ensures Perm(e) % 2 == e % 2 && Perm(e) / 2 % 2 == e / 2 % 2 && Perm(e) / 4 % 2 == e / 4 % 2
  {
    var q, r := e / 4096, e % 4096;
    assert e == 2 * (2048 * q) + r;
    AddEven(1024 * q, r / 2);
    AddEven(512 * q, r / 4);
    HalfOfSum(1024 * q, r);
    HalfOfSum(512 * q, r / 2);
  }

  lemma HighBitsOfPerm(e: Word)
    ensures Perm(e) / 0x200 % 2 == e / 0x200 % 2 && Perm(e) / 0x800 % 2 == e / 0x800 % 2
  {
    var q, r := e / 4096, e % 4096;
    DivideSum9(q, r);
    DivideSum11(q, r);
    AddEven(4 * q, r / 0x200);
    AddEven(q, r / 0x800);
  }

  lemma DivideSum9(q: nat, r: nat)
    ensures (4096 * q + r) / 0x200 == 8 * q + r / 0x200
  {
  }

  lemma DivideSum11(q: nat, r: nat)
    ensures (4096 * q + r) / 0x800 == 2 * q + r / 0x800
  {
  }

  lemma AddEven(n: nat, m: nat)
    ensures (2 * n + m) % 2 == m % 2
  {
  }

  lemma HalfOfSum(n: nat, m: nat)
    ensures (4 * n + m) / 2 == 2 * n + m / 2
  {
  }

  // ----- Bytes of a word (little endian)

  function ByteOf(w: Word, k: nat): (b: Byte)
    requires k < 4
  {
    if k == 0 then w % 256
    else if k == 1 then (w / 0x100) % 256
    else if k == 2 then (w / 0x1_0000) % 256
    else w / 0x100_0000
  }

  function Pack(b0: Byte, b1: Byte, b2: Byte, b3: Byte): (w: Word)
  {
    b0 + b1 * 0x100 + b2 * 0x1_0000 + b3 * 0x100_0000
  }

  lemma PackBytes(b0: Byte, b1: Byte, b2: Byte, b3: Byte)
    ensures ByteOf(Pack(b0, b1, b2, b3), 0) == b0
    ensures ByteOf(Pack(b0, b1, b2, b3), 1) == b1
    ensures ByteOf(Pack(b0, b1, b2, b3), 2) == b2
    ensures ByteOf(Pack(b0, b1, b2, b3), 3) == b3
  {
    var w := Pack(b0, b1, b2, b3);
    assert w / 0x100 == b1 + b2 * 0x100 + b3 * 0x1_0000;
    assert w / 0x1_0000 == b2 + b3 * 0x100;
  }

  lemma WordIsPacked(w: Word)
    ensures w == Pack(ByteOf(w, 0), ByteOf(w, 1), ByteOf(w, 2), ByteOf(w, 3))
  {
    var a, b, c := w / 0x100, w / 0x1_0000, w / 0x100_0000;
    assert b == a / 0x100;
    assert c == b / 0x100;
    assert w == a * 0x100 + ByteOf(w, 0);
    assert a == b * 0x100 + ByteOf(w, 1);
    assert b == c * 0x100 + ByteOf(w, 2);
  }

  /** A word is determined by its four bytes. */
  lemma SameBytesSameWord(v: Word, w: Word)
    requires forall k :: 0 <= k < 4 ==> ByteOf(v, k) == ByteOf(w, k)
    ensures v == w
  {
    assert ByteOf(v, 0) == ByteOf(w, 0) && ByteOf(v, 1) == ByteOf(w, 1);
    assert ByteOf(v, 2) == ByteOf(w, 2) && ByteOf(v, 3) == ByteOf(w, 3);
    WordIsPacked(v);
    WordIsPacked(w);
  }

  /** The word with byte `k` replaced: what a one-byte store does to the word it falls in. */
  function SetByte(w: Word, k: nat, b: Byte): (r: Word)
    requires k < 4
  {
    Pack(if k == 0 then b else ByteOf(w, 0), if k == 1 then b else ByteOf(w, 1),
         if k == 2 then b else ByteOf(w, 2), if k == 3 then b else ByteOf(w, 3))
  }

  /** A byte store changes that byte of the word and no other. */
  lemma SetByteGet(w: Word, k: nat, b: Byte, j: nat)
    requires k < 4 && j < 4
    ensures ByteOf(SetByte(w, k, b), j) == if j == k then b else ByteOf(w, j)
  {
    PackBytes(if k == 0 then b else ByteOf(w, 0), if k == 1 then b else ByteOf(w, 1),
              if k == 2 then b else ByteOf(w, 2), if k == 3 then b else ByteOf(w, 3));
  }
}
