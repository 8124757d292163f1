/** The copy loops of kern/lib/pmap.c and the loader of kern/lib/elf.c as they run, each proved
    against the function of the state that describes it. */
module ProgramLoading {
  import opened Words
  import opened AllocTable
  import opened Containers
  import opened PageTables
  import opened Mapping
  import opened PageStructure
  import opened UserCopy
  import opened CopyServed
  import opened ElfLoad

  /** The frame under `va`, allocated first if the page is missing. */
  method Resolve(mem: PagedMemory, p: nat, va: Word) returns (f: nat)
    requires mem.Valid() && p < NUM_IDS
    modifies mem.pool.alloc.at, mem.pool.cont, mem.pdir, mem.phys
    ensures mem.State() == Touch(old(mem.State()), p, va) && f == Frame(EntryByVa(mem.State(), p, va))
  {
    hide EntryByVa, Mapping.AllocPage;
    var e := mem.GetPtblEntryByVa(p, va);
    if !Present(e) {
      var _ := mem.AllocPage(p, va, PTU);
      e := mem.GetPtblEntryByVa(p, va);
    }
    f := Frame(e);
  }

  /** memcpy from the kernel to a frame. */
  method StoreBytes(mem: PagedMemory, f: nat, off: nat, bs: seq<Byte>)
    requires mem.Valid() && f < TABLE_SIZE && off + |bs| <= 4096
    modifies mem.phys
    ensures mem.State() == SetFrame(old(mem.State()), f, PutBytes(old(mem.State()).phys[f], off, bs))
  {
    hide StoreByte;
    var i := 0;
    while i < |bs|
      invariant 0 <= i <= |bs|
      invariant mem.phys[..] == old(mem.phys[..])[f := PutBytes(old(mem.phys[f]), off, bs[..i])]
    {
      assert bs[..i + 1][..i] == bs[..i];
      mem.phys[f] := StoreByte(mem.phys[f], off + i, bs[i]);
      i := i + 1;
    }
    assert bs[..i] == bs;
  }

  /** memcpy from a frame to the kernel buffer. */
  method FetchBytes(mem: PagedMemory, f: nat, off: nat, n: nat, kbuf: array<Byte>, at: nat)
    requires mem.Valid() && f < TABLE_SIZE && off + n <= 4096 && at + n <= kbuf.Length
    modifies kbuf
    ensures kbuf[..at + n] == old(kbuf[..at]) + GetBytes(mem.State().phys[f], off, n)
    ensures kbuf[at + n..] == old(kbuf[at + n..])
  {
    hide ByteAt;
    var i := 0;
    while i < n
      invariant 0 <= i <= n
      invariant forall k :: 0 <= k < kbuf.Length ==>
                  kbuf[k] == if at <= k < at + i then ByteAt(mem.phys[f], off + (k - at)) else old(kbuf[k])
    {
      kbuf[at + i] := ByteAt(mem.phys[f], off + i);
      i := i + 1;
    }
  }

  /** `pt_copyout` */
  method PtCopyout(mem: PagedMemory, kva: Word, buf: seq<Byte>, p: nat, va: Word) returns (copied: nat)
    requires mem.Valid() && p < NUM_IDS
    modifies mem.pool.alloc.at, mem.pool.cont, mem.pdir, mem.phys
    ensures (mem.State(), copied) == Copyout(old(mem.State()), kva, buf, p, va)
  {
    if !(VM_USERLO <= va && U32(va + |buf|) <= VM_USERHI) || U32(kva + |buf|) > VM_USERHI {
      return 0;
    }
    copied := WriteLoop(mem, p, va, buf);
  }

  /** The loop of `pt_copyout`. */
  method WriteLoop(mem: PagedMemory, p: nat, va: Word, buf: seq<Byte>) returns (copied: nat)
    requires mem.Valid() && p < NUM_IDS
    modifies mem.pool.alloc.at, mem.pool.cont, mem.pdir, mem.phys
    ensures mem.State() == CopyLoop(old(mem.State()), p, va, buf) && copied == |buf|
  {
    hide Touch, PutBytes, EntryByVa, CopyLoop;
    var uva: Word := va;
    copied := 0;
    while copied < |buf|
      invariant 0 <= copied <= |buf|
      invariant CopyLoop(mem.State(), p, uva, buf[copied..]) == CopyLoop(old(mem.State()), p, va, buf)
    {
      var size := Chunk(uva, |buf| - copied);
      LoopUnfolds(mem.State(), p, uva, buf[copied..]);
      assert buf[copied..][..size] == buf[copied..copied + size];
      assert buf[copied..][size..] == buf[copied + size..];
      var f := Resolve(mem, p, uva);
      StoreBytes(mem, f, uva % 4096, buf[copied..copied + size]);
      uva := U32(uva + size);
      copied := copied + size;
    }
    assert buf[copied..] == [];
    LoopEnds(mem.State(), p, uva);
  }

  /** `pt_copyin` */
  method PtCopyin(mem: PagedMemory, p: nat, va: Word, kva: Word, kbuf: array<Byte>, len: nat) returns (copied: nat)
    requires mem.Valid() && p < NUM_IDS && len <= kbuf.Length
    modifies mem.pool.alloc.at, mem.pool.cont, mem.pdir, mem.phys, kbuf
    ensures var (s, bs) := Copyin(old(mem.State()), p, va, kva, len);
            mem.State() == s && copied == |bs| && copied <= kbuf.Length && kbuf[..] == bs + old(kbuf[copied..])
  {
    hide ReadLoop;
    if !(VM_USERLO <= va && U32(va + len) <= VM_USERHI) || U32(kva + len) > VM_USERHI {
      return 0;
    }
    copied := ReadIn(mem, p, va, kbuf, len);
  }

  /** The loop of `pt_copyin`. */
  method ReadIn(mem: PagedMemory, p: nat, va: Word, kbuf: array<Byte>, len: nat) returns (copied: nat)
    requires mem.Valid() && p < NUM_IDS && len <= kbuf.Length
    modifies mem.pool.alloc.at, mem.pool.cont, mem.pdir, mem.phys, kbuf
    ensures var (s, bs) := ReadLoop(old(mem.State()), p, va, len);
            mem.State() == s && copied == |bs| == len && kbuf[..] == bs + old(kbuf[len..])
  {
    hide Touch, GetBytes, EntryByVa, ReadLoop, Chunk, U32;
    var uva: Word := va;
    copied := 0;
    assert kbuf[..0] + ReadLoop(mem.State(), p, va, len).1 == ReadLoop(mem.State(), p, va, len).1;
    while copied < len
      invariant 0 <= copied <= len
      invariant var (s, rest) := ReadLoop(mem.State(), p, uva, len - copied);
                ReadLoop(old(mem.State()), p, va, len) == (s, kbuf[..copied] + rest)
      invariant kbuf[copied..] == old(kbuf[copied..])
    {
      var size := Chunk(uva, len - copied);
      ReadUnfolds(mem.State(), p, uva, len - copied);
      var f := Resolve(mem, p, uva);
      ghost var had, chunk := kbuf[..copied], GetBytes(mem.State().phys[f], uva % 4096, size);
      ghost var was := kbuf[copied..];
      Assoc(had, chunk, ReadLoop(mem.State(), p, U32(uva + size), len - copied - size).1);
      FetchBytes(mem, f, uva % 4096, size, kbuf, copied);
      assert old(kbuf[copied..])[size..] == old(kbuf[copied + size..]) && was[size..] == kbuf[copied + size..];
      uva := U32(uva + size);
      copied := copied + size;
    }
    ReadUnfolds(mem.State(), p, uva, 0);
    assert kbuf[..] == kbuf[..copied] + kbuf[copied..];
  }

  lemma Assoc(a: seq<Byte>, b: seq<Byte>, c: seq<Byte>)
    ensures a + (b + c) == a + b + c
  {
  }

  /** `pt_memset` */
  method PtMemset(mem: PagedMemory, p: nat, va: Word, c: Byte, len: nat) returns (done: nat)
    requires mem.Valid() && p < NUM_IDS
    modifies mem.pool.alloc.at, mem.pool.cont, mem.pdir, mem.phys
    ensures mem.State() == Memset(old(mem.State()), p, va, c, len) && done == len
  {
    hide Touch, PutBytes, EntryByVa, CopyLoop;
    var uva: Word := va;
    done := 0;
    while done < len
      invariant 0 <= done <= len
      invariant Memset(mem.State(), p, uva, c, len - done) == Memset(old(mem.State()), p, va, c, len)
    {
      var size := Chunk(uva, len - done);
      ghost var left := seq<Byte>(len - done, _ => c);
      LoopUnfolds(mem.State(), p, uva, left);
      assert left[..size] == seq<Byte>(size, _ => c);
      assert left[size..] == seq<Byte>(len - done - size, _ => c);
      var f := Resolve(mem, p, uva);
      StoreBytes(mem, f, uva % 4096, seq<Byte>(size, _ => c));
      uva := U32(uva + size);
      done := done + size;
    }
    assert seq<Byte>(0, _ => c) == [];
    LoopEnds(mem.State(), p, uva);
  }

  // ----- The loader

  method LoadOnePage(mem: PagedMemory, p: nat, exe: Word, file: seq<Byte>, h: ProgHeader, va: Word, off: nat)
    requires mem.Valid() && p < NUM_IDS
    modifies mem.pool.alloc.at, mem.pool.cont, mem.pdir, mem.phys
    ensures mem.State() == LoadPage(old(mem.State()), p, exe, file, h, va, off)
  {
    hide Mapping.AllocPage, Copyout, Memset, FileBytes;
    var zva := U32(h.va + h.filesz);
    var _ := mem.AllocPage(p, va, SegPerm(h));
    if va < RoundDown(zva) {
      var _ := PtCopyout(mem, U32(exe + off), FileBytes(file, off, 4096), p, va);
    } else {
      var _ := PtMemset(mem, p, va, 0, 4096);
      if va < zva && h.filesz != 0 {
        var _ := PtCopyout(mem, U32(exe + off), FileBytes(file, off, zva - va), p, va);
      }
    }
  }

  /** `elf_load`, from the program headers on. */
  method ElfLoadProgram(mem: PagedMemory, p: nat, exe: Word, file: seq<Byte>, hs: seq<ProgHeader>)
    requires mem.Valid() && p < NUM_IDS
    modifies mem.pool.alloc.at, mem.pool.cont, mem.pdir, mem.phys
    ensures mem.State() == Load(old(mem.State()), p, exe, file, hs)
  {
    hide LoadPages;
    var k := 0;
    while k < |hs|
      invariant 0 <= k <= |hs|
      invariant Load(mem.State(), p, exe, file, hs[k..]) == Load(old(mem.State()), p, exe, file, hs)
    {
      var h := hs[k];
      assert hs[k..][0] == h && hs[k..][1..] == hs[k + 1..];
      if h.ptype == ELF_PROG_LOAD {
        LoadPageLoop(mem, p, exe, file, h);
      }
      k := k + 1;
    }
  }

  method LoadPageLoop(mem: PagedMemory, p: nat, exe: Word, file: seq<Byte>, h: ProgHeader)
    requires mem.Valid() && p < NUM_IDS
    modifies mem.pool.alloc.at, mem.pool.cont, mem.pdir, mem.phys
    ensures mem.State() == LoadPages(old(mem.State()), p, exe, file, h, RoundDown(h.va), RoundDown(h.offset))
  {
    hide LoadPage;
    var va: Word, off: nat := RoundDown(h.va), RoundDown(h.offset);
    var eva := RoundUp(U32(h.va + h.memsz));
    while va < eva
      invariant LoadPages(mem.State(), p, exe, file, h, va, off)
             == LoadPages(old(mem.State()), p, exe, file, h, RoundDown(h.va), RoundDown(h.offset))
      decreases 0x1_0000_0000 - va
    {
      LoadOnePage(mem, p, exe, file, h, va, off);
      va := va + 4096;
      off := off + 4096;
    }
  }
}
