/** The emulated memory of memory.c: 32 MB of bytes seen through two address windows, with a read tag and a write
    tag on every byte. The module gives the meaning of an access as a function on values (Load, Store), the class
    TaggedMemory performs it byte by byte in place, as the source does. */
module Memory {
  import opened Words

  const MEMSIZE: nat := 0x200_0000
  const MIRROR: nat := 0x800_0000

  /** The two bits of a `tags[]` entry: 1 is `read`, 2 is `written`. */
  datatype Tag = Tag(read: bool, written: bool)

  type Bytes = s: seq<u8> | |s| == MEMSIZE witness seq(MEMSIZE, _ => 0)
  type Tags = s: seq<Tag> | |s| == MEMSIZE witness seq(MEMSIZE, _ => Tag(false, false))

  datatype Mem = Mem(bytes: Bytes, tags: Tags)

  function ZeroBytes(): Bytes { seq(MEMSIZE, _ => 0) }
  function NoTags(): Tags { seq(MEMSIZE, _ => Tag(false, false)) }

  /** Which byte of the array an address means; None where the source prints a message and exits. */
  function Phys(a: u32): Option<nat>
  {
    var p := match a / MIRROR
      case 0 => a
      case 1 => a - MIRROR
      case _ => MEMSIZE;
    if p < MEMSIZE then Some(p) else None
  }

  /** Where an access to the n bytes from address a lands. */
  function Slot(a: u32, n: nat): Option<nat>
  {
    match Phys(a)
    case None => None
    case Some(p) => if p + n <= MEMSIZE then Some(p) else None
  }

  function MarkRead(tags: Tags, p: nat, n: nat): Tags
  {
    seq(MEMSIZE, i requires 0 <= i < MEMSIZE => if p <= i < p + n then tags[i].(read := true) else tags[i])
  }

  function MarkWritten(tags: Tags, p: nat, n: nat): Tags
  {
    seq(MEMSIZE, i requires 0 <= i < MEMSIZE => if p <= i < p + n then tags[i].(written := true) else tags[i])
  }

  function Overwrite(bytes: Bytes, p: nat, bs: seq<u8>): Bytes
  {
    seq(MEMSIZE, i requires 0 <= i < MEMSIZE => if p <= i < p + |bs| then bs[i - p] else bytes[i])
  }

  /** The n bytes from address a and the memory with their read tags set; None if the run ends here. */
  function Load(m: Mem, a: u32, n: nat): (r: Option<(seq<u8>, Mem)>)
    ensures r.Some? <==> Slot(a, n).Some?
    ensures r.Some? ==> |r.value.0| == n && r.value.1.bytes == m.bytes
  {
    match Slot(a, n)
    case None => None
    case Some(p) => Some((m.bytes[p..p + n], m.(tags := MarkRead(m.tags, p, n))))
  }

  /** The memory after the bytes bs are written from address a on. */
  function Store(m: Mem, a: u32, bs: seq<u8>): (r: Option<Mem>)
    ensures r.Some? <==> Slot(a, |bs|).Some?
  {
    match Slot(a, |bs|)
    case None => None
    case Some(p) => Some(Mem(Overwrite(m.bytes, p, bs), MarkWritten(m.tags, p, |bs|)))
  }

  /** Consecutive addresses are consecutive bytes of one window. */
  lemma PhysNext(a: u32, i: nat)
    requires Phys(a).Some?
    ensures Phys(U32(a + i)).Some? && i <= MEMSIZE ==> Phys(U32(a + i)) == Some(Phys(a).value + i)
    ensures i <= MEMSIZE ==> (Phys(U32(a + i)).Some? <==> Phys(a).value + i < MEMSIZE)
  {
  }

  /** One byte more. */
  lemma ReadMore(m: Mem, p: nat, i: nat)
    requires p + i < MEMSIZE
    ensures MarkRead(MarkRead(m.tags, p, i), p + i, 1) == MarkRead(m.tags, p, i + 1)
    ensures m.bytes[p..p + i] + [m.bytes[p + i]] == m.bytes[p..p + (i + 1)]
  {
  }

  lemma WriteMore(m: Mem, p: nat, bs: seq<u8>, i: nat)
    requires i < |bs|
    ensures MarkWritten(MarkWritten(m.tags, p, i), p + i, 1) == MarkWritten(m.tags, p, i + 1)
    ensures Overwrite(Overwrite(m.bytes, p, bs[..i]), p + i, [bs[i]]) == Overwrite(m.bytes, p, bs[..i + 1])
  {
  }

  lemma NothingYet(m: Mem, p: nat)
    ensures MarkRead(m.tags, p, 0) == m.tags == MarkWritten(m.tags, p, 0) && Overwrite(m.bytes, p, []) == m.bytes
  {
  }

  class TaggedMemory {
    const memory: array<u8>
    const tags: array<Tag>

    ghost predicate Valid() {
      memory.Length == MEMSIZE && tags.Length == MEMSIZE && memory as object != tags as object
    }

    ghost function View(): Mem
      reads memory, tags
      requires Valid()
    {
      Mem(memory[..], tags[..])
    }

    /** mem_init: all bytes zero, no tag set. */
    constructor ()
      ensures Valid() && fresh(memory) && fresh(tags)
      ensures View() == Mem(ZeroBytes(), NoTags())
    {
      memory := new u8[MEMSIZE](_ => 0);
      tags := new Tag[MEMSIZE](_ => Tag(false, false));
      new;
      assert memory[..] == ZeroBytes();
      assert tags[..] == NoTags();
    }

    method LoadSection(mem: u32, bytes: seq<u8>)
      requires Valid()
      requires mem + |bytes| <= MEMSIZE
      modifies memory
      ensures View() == Mem(Overwrite(old(View().bytes), mem, bytes), old(View().tags))
    {
      forall i | 0 <= i < |bytes| {
        memory[mem + i] := bytes[i];
      }
      assert memory[..] == Overwrite(old(memory[..]), mem, bytes);
    }

    method DumpSection(mem: u32, size: nat) returns (bytes: seq<u8>)
      requires Valid()
      requires mem + size <= MEMSIZE
      ensures bytes == View().bytes[mem..mem + size]
    {
      bytes := memory[mem..mem + size];
    }

    method IsZero(mem: u32) returns (z: bool)
      requires Valid() && mem < MEMSIZE
      ensures z <==> View().bytes[mem] == 0
    {
      z := memory[mem] == 0;
    }

    method HasWrite(mem: u32) returns (w: bool)
      requires Valid() && mem < MEMSIZE
      ensures w <==> View().tags[mem].written
    {
      w := tags[mem].written;
    }

    method Read8(mem: u32) returns (r: Option<u8>)
      requires Valid()
      modifies tags
      ensures r.Some? <==> Phys(mem).Some?
      ensures r.Some? ==> r.value == old(View()).bytes[Phys(mem).value]
      ensures r.Some? ==> View() == Mem(old(View().bytes), MarkRead(old(View().tags), Phys(mem).value, 1))
    {
      match Phys(mem)
      case None => r := None;
      case Some(p) =>
        r := Some(memory[p]);
        tags[p] := tags[p].(read := true);
        assert tags[..] == MarkRead(old(tags[..]), p, 1);
    }

    method Write8(mem: u32, value: u8) returns (ok: bool)
      requires Valid()
      modifies memory, tags
      ensures ok <==> Phys(mem).Some?
      ensures ok ==> View() == Mem(Overwrite(old(View().bytes), Phys(mem).value, [value]),
                                   MarkWritten(old(View().tags), Phys(mem).value, 1))
    {
      match Phys(mem)
      case None => ok := false;
      case Some(p) =>
        memory[p] := value;
        tags[p] := tags[p].(written := true);
        ok := true;
        assert memory[..] == Overwrite(old(memory[..]), p, [value]);
        assert tags[..] == MarkWritten(old(tags[..]), p, 1);
    }

    /** memRead8, 16, 32, 64 and 128 (n = 1, 2, 4, 8, 16): one Read8 a byte, in address order. */
    method Read(mem: u32, n: nat) returns (r: Option<seq<u8>>)
      requires Valid()
      requires 0 < n <= 16
      modifies tags
      ensures r.Some? <==> Load(old(View()), mem, n).Some?
      ensures r.Some? ==> (r.value, View()) == Load(old(View()), mem, n).value
    {
      hide MarkRead, Phys;
      var bs: seq<u8> := [];
      ghost var m := View();
      for i := 0 to n
        invariant |bs| == i
        invariant i == 0 ==> View() == m
        invariant i > 0 ==> Slot(mem, i).Some?
        invariant i > 0 ==> (bs, View()) == Load(m, mem, i).value
      {
        var b := Read8(U32(mem + i));
        SameAddress(mem);
        if i > 0 {
          PhysNext(mem, i);
        }
        if b.None? {
          return None;
        }
        bs := bs + [b.value];
        ghost var p := Phys(mem).value;
        NothingYet(m, p);
        ReadMore(m, p, i);
      }
      r := Some(bs);
    }

    /** memWrite8, 16, 32, 64 and 128: one Write8 a byte, in address order. */
    method Write(mem: u32, bs: seq<u8>) returns (ok: bool)
      requires Valid()
      requires 0 < |bs| <= 16
      modifies memory, tags
      ensures ok <==> Store(old(View()), mem, bs).Some?
      ensures ok ==> View() == Store(old(View()), mem, bs).value
    {
      hide MarkWritten, Overwrite, Phys;
      ghost var m := View();
      for i := 0 to |bs|
        invariant i == 0 ==> View() == m
        invariant i > 0 ==> Slot(mem, i).Some?
        invariant i > 0 ==> View() == Store(m, mem, bs[..i]).value
      {
        ok := Write8(U32(mem + i), bs[i]);
        SameAddress(mem);
        if i > 0 {
          PhysNext(mem, i);
        }
        if !ok {
          return;
        }
        ghost var p := Phys(mem).value;
        NothingYet(m, p);
        WriteMore(m, p, bs, i);
        assert i == 0 ==> bs[..0] == [];
      }
      assert bs[..|bs|] == bs;
      ok := true;
    }
  }

  lemma SameAddress(a: u32)
    ensures U32(a) == a && (Phys(a).Some? ==> Phys(a).value < MEMSIZE)
  {
  }

  /** Mapped are the 32 MB from 0 on and the same bytes again from 128 MB on. */
  lemma Windows(a: u32)
    ensures Phys(a) == if a < 0x200_0000 then Some(a)
                       else if 0x800_0000 <= a < 0xa00_0000 then Some(a - 0x800_0000)
                       else None
  {
  }

  /** The two windows show the same bytes. */
  lemma MirrorAliases(a: u32, n: nat)
    requires a < MEMSIZE
    ensures Slot(a + MIRROR, n) == Slot(a, n)
  {
  }

  /** What a w-byte number at array index p leaves of the n bytes from q: its own bytes where the two overlap. */
  function Merge(old_: Bytes, p: nat, v: nat, w: nat, q: nat, n: nat): seq<u8>
    requires q + n <= MEMSIZE
  {
    seq(n, i requires 0 <= i < n => if p <= q + i < p + w then Enc(v, w)[q + i - p] else old_[q + i])
  }

  /** A number written through one window and read back through any window at any overlap: the bytewise merge. Every
      other byte and write tag is as before. */
  lemma WriteThenRead(m: Mem, a: u32, v: nat, w: nat, b: u32, n: nat)
    requires Slot(a, w).Some? && Slot(b, n).Some?
    ensures var s := Store(m, a, Enc(v, w)).value;
            var p, q := Slot(a, w).value, Slot(b, n).value;
            && Load(s, b, n).value.0 == Merge(m.bytes, p, v, w, q, n)
            && (forall i :: 0 <= i < MEMSIZE && !(p <= i < p + w) ==>
                  s.bytes[i] == m.bytes[i] && s.tags[i] == m.tags[i])
            && (forall i :: p <= i < p + w ==> s.tags[i] == m.tags[i].(written := true))
            && (forall i :: 0 <= i < MEMSIZE ==>
                  Load(s, b, n).value.1.tags[i].written == (m.tags[i].written || p <= i < p + w))
  {
    var s := Store(m, a, Enc(v, w)).value;
    assert Load(s, b, n).value.0 == Merge(m.bytes, Slot(a, w).value, v, w, Slot(b, n).value, n);
  }

  /** The same number comes back through either window. */
  lemma WindowRoundTrip(m: Mem, a: u32, v: nat, w: nat)
    requires a < MEMSIZE && Slot(a, w).Some? && v < Pow2(8 * w)
    ensures var s := Store(m, a, Enc(v, w)).value;
            Load(s, a + MIRROR, w).Some? && LE(Load(s, a + MIRROR, w).value.0) == v
    ensures var s := Store(m, a + MIRROR, Enc(v, w)).value;
            Load(s, a, w).Some? && LE(Load(s, a, w).value.0) == v
  {
    MirrorAliases(a, w);
    WriteThenRead(m, a, v, w, a + MIRROR, w);
    WriteThenRead(m, a + MIRROR, v, w, a, w);
    var p := Slot(a, w).value;
    assert Merge(m.bytes, p, v, w, p, w) == Enc(v, w);
    LEEnc(v, w);
  }
}
