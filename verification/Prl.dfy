/** Page-relocatable images: tools/makeprl.c builds them, PageReloc loads them.
    A relocation bitmap, most significant bit first, marks the bytes that hold
    a page number. */
module Prl {
  import opened Machine

  const HEADER_SIZE := 256

  // ---- bits of a bitmap ----

  function Mask(k: nat): byte
    requires k < 8
  {
    match k
    case 0 => 0x80 case 1 => 0x40 case 2 => 0x20 case 3 => 0x10
    case 4 => 0x08 case 5 => 0x04 case 6 => 0x02 case _ => 0x01
  }

  /** The most significant bit comes first. */
  lemma MostSignificantFirst(k: nat)
    requires k < 8
    ensures Mask(k) as int == [128, 64, 32, 16, 8, 4, 2, 1][k]
  {
  }

  predicate Bit(b: byte, k: nat)
    requires k < 8
  {
    b & Mask(k) != 0
  }

  /** Bit `i` of the bitmap that begins at `s[base]`. */
  predicate BitAt(s: seq<byte>, base: nat, i: nat)
    requires base + i / 8 < |s|
  {
    Bit(s[base + i / 8], i % 8)
  }

  function Half(m: byte): byte {
    m >> 1
  }

  /** `o` with the bits of `m` set or cleared. */
  function Put(o: byte, m: byte, b: bool): byte {
    if b then o | m else o & !m
  }

  lemma PutBits(o: byte, c: nat, b: bool, k: nat)
    requires c < 8 && k < 8
    ensures Bit(Put(o, Mask(c), b), k) == if k == c then b else Bit(o, k)
  {
  }

  lemma NextMask(c: nat)
    requires c < 8
    ensures Half(Mask(c)) == if c == 7 then 0 else Mask(c + 1)
  {
  }

  /** The bits of `o` are `tail`, padded with zeros. */
  ghost predicate Pending(o: byte, tail: seq<bool>) {
    |tail| <= 8 && forall k :: 0 <= k < 8 ==> Bit(o, k) == (k < |tail| && tail[k])
  }

  /** The mask and the byte under construction after the bits `tail`. */
  function Packed(tail: seq<bool>): (byte, byte) {
    if tail == [] then (0x80, 0)
    else
      var n := |tail| - 1;
      var (m, o) := Packed(tail[..n]);
      (Half(m), Put(o, m, tail[n]))
  }

  lemma {:induction false} PackedIsPending(tail: seq<bool>)
    requires |tail| <= 8
    ensures Pending(Packed(tail).1, tail)
    ensures |tail| < 8 ==> Packed(tail).0 == Mask(|tail|)
  {
    if tail == [] {
      forall k | 0 <= k < 8
        ensures !Bit(0, k)
      {
        assert 0 & Mask(k) == 0;
      }
    } else {
      var n := |tail| - 1;
      var rest := tail[..n];
      PackedIsPending(rest);
      NextMask(n);
      assert Packed(tail).1 == Put(Packed(rest).1, Mask(n), tail[n]);
      forall k | 0 <= k < 8
        ensures Bit(Packed(tail).1, k) == (k < |tail| && tail[k])
      {
        PutBits(Packed(rest).1, n, tail[n], k);
      }
    }
  }

  // ---- makeprl ----

  /** `packed` holds `bits`, each byte complete. */
  ghost predicate Packs(packed: seq<byte>, bits: seq<bool>) {
    && |bits| == 8 * |packed|
    && forall i :: 0 <= i < |bits| ==> BitAt(packed, 0, i) == bits[i]
  }

  /** The last byte holds the last eight bits. */
  lemma PacksOneMore(packed: seq<byte>, bits: seq<bool>, o: byte, last: seq<bool>)
    requires Packs(packed, bits) && |last| == 8 && o == Packed(last).1
    ensures Packs(packed + [o], bits + last)
  {
    PackedIsPending(last);
    var packed', bits' := packed + [o], bits + last;
    forall i | 0 <= i < |bits'|
      ensures BitAt(packed', 0, i) == bits'[i]
    {
      if i < |bits| {
        assert packed'[i / 8] == packed[i / 8];
        assert BitAt(packed, 0, i) == bits[i];
      } else {
        assert i / 8 == |packed| && i % 8 == i - |bits|;
      }
    }
  }

  class PrlFile {
    var file: seq<byte>
    // The statics of addbit.
    var m: byte
    var c: nat
    var o: byte

    // The bitmap begins at `start`; `whole` bits are in the file, `tail` is
    // under construction.
    ghost var start: nat
    ghost var whole: seq<bool>
    ghost var tail: seq<bool>

    ghost predicate Valid()
      reads this
    {
      && c == |tail| < 8 && (m, o) == Packed(tail)
      && start <= |file| && Packs(file[start..], whole)
    }

    constructor (header: seq<byte>, image: seq<byte>)
      ensures Valid() && whole == tail == [] && file == header + image && start == |file|
    {
      file, m, c, o := header + image, 0x80, 0, 0;
      start, whole, tail := |header + image|, [], [];
    }

    method AddBit(b: bool)
      requires Valid()
      modifies this
      ensures Valid()
      ensures whole + tail == old(whole + tail) + [b]
      ensures start == old(start) && old(file) <= file
    {
      assert (tail + [b])[..c] == tail;
      o := Put(o, m, b);
      m := Half(m);
      c := c + 1;
      tail := tail + [b];
      if c == 8 {
        EmitByte();
      }
    }

    method EmitByte()
      requires c == |tail| == 8 && o == Packed(tail).1
      requires start <= |file| && Packs(file[start..], whole)
      modifies this
      ensures Valid()
      ensures file == old(file) + [old(o)] && start == old(start)
      ensures whole == old(whole + tail) && tail == []
    {
      PacksOneMore(file[start..], whole, o, tail);
      assert (file + [o])[start..] == file[start..] + [o];
      file := file + [o];
      m, c, o := 0x80, 0, 0;
      whole, tail := whole + tail, [];
    }
  }

  function Min(a: nat, b: nat): nat {
    if a < b then a else b
  }

  /** Header byte `i`: the header file padded with zeros, and the image's
      length, modulo 65536, in bytes 1 and 2. */
  function HeaderByte(header: seq<byte>, n: nat, i: nat): byte {
    if i == 1 then ByteOf(n % 256)
    else if i == 2 then ByteOf(n / 256 % 256)
    else if i < |header| then header[i]
    else 0
  }

  /** The bitmap starts behind header and image; bit `i` marks a byte in which
      the two images differ. */
  ghost predicate IsPrl(file: seq<byte>, image0: seq<byte>, image1: seq<byte>, header: seq<byte>) {
    var n, b := |image1|, Min(|image0|, |image1|);
    && |file| == HEADER_SIZE + n + (b + 7) / 8
    && (forall i :: 0 <= i < HEADER_SIZE ==> file[i] == HeaderByte(header, n, i))
    && file[HEADER_SIZE..HEADER_SIZE + n] == image1
    && forall i :: 0 <= i < (b + 7) / 8 * 8 ==>
         BitAt(file, HEADER_SIZE + n, i) == (i < b && image1[i] != image0[i])
  }

  /** The sizes and places of the parts of the file, and the length that its
      header tells, low byte first. */
  lemma FileIs(file: seq<byte>, image0: seq<byte>, image1: seq<byte>, header: seq<byte>)
    requires IsPrl(file, image0, image1, header) && |image0| == |image1|
    ensures var n := |image1|;
      && |file| == 256 + n + (n + 7) / 8
      && file[256..256 + n] == image1
      && (n < 0x1_0000 ==> file[1] as int + 256 * file[2] as int == n)
      && (forall i :: 0 <= i < 256 && i != 1 && i != 2 ==> file[i] == if i < |header| then header[i] else 0)
  {
    hide BitAt;
    var n := |image1|;
    assert file[1] == HeaderByte(header, n, 1) && file[2] == HeaderByte(header, n, 2);
    if n < 0x1_0000 {
      LengthBytes(n);
    }
  }

  /** One bit behind the image for each of its bytes. */
  lemma BitmapIs(file: seq<byte>, image0: seq<byte>, image1: seq<byte>, header: seq<byte>, i: nat)
    requires IsPrl(file, image0, image1, header) && |image0| == |image1| && i < |image1|
    ensures |file| == 256 + |image1| + (|image1| + 7) / 8
    ensures image1[i] != image0[i] <==> file[256 + |image1| + i / 8] & Mask(i % 8) != 0
  {
    hide Mask, HeaderByte;
    BitmapCovers(|image1|, i);
    assert BitAt(file, HEADER_SIZE + |image1|, i) == (image1[i] != image0[i]);
  }

  lemma LengthBytes(n: nat)
    requires n < 0x1_0000
    ensures n % 256 + 256 * (n / 256 % 256) == n
  {
  }

  lemma BitmapCovers(n: nat, i: nat)
    requires i < n
    ensures i < (n + 7) / 8 * 8
  {
  }

  method PadHeader(header: seq<byte>) returns (out: seq<byte>)
    ensures |out| == HEADER_SIZE
    ensures forall k :: 0 <= k < HEADER_SIZE ==> out[k] == if k < |header| then header[k] else 0
  {
    out := [];
    while |out| < HEADER_SIZE
      invariant |out| <= HEADER_SIZE
      invariant forall k :: 0 <= k < |out| ==> out[k] == if k < |header| then header[k] else 0
    {
      out := out + [if |out| < |header| then header[|out|] else 0];
    }
  }

  function Marks(image0: seq<byte>, image1: seq<byte>): (marks: seq<bool>) {
    seq(Min(|image0|, |image1|), i requires 0 <= i < Min(|image0|, |image1|) => image1[i] != image0[i])
  }

  function Zeros(n: nat): (z: seq<bool>) {
    seq(n, _ => false)
  }

  method WriteBitmap(f: PrlFile, image0: seq<byte>, image1: seq<byte>)
    requires f.Valid() && f.whole == f.tail == [] && f.start == |f.file|
    modifies f
    ensures f.Valid() && f.start == old(f.start) && old(f.file) <= f.file
    ensures f.whole + f.tail == Marks(image0, image1) + Zeros(7)
  {
    ghost var marks := Marks(image0, image1);
    var i := 0;
    while i < |image1| && i < |image0|
      invariant 0 <= i <= Min(|image0|, |image1|)
      invariant f.Valid() && f.start == old(f.start) && old(f.file) <= f.file
      invariant f.whole + f.tail == marks[..i]
    {
      f.AddBit(image1[i] != image0[i]);
      assert marks[..i + 1] == marks[..i] + [image1[i] != image0[i]];
      i := i + 1;
    }
    assert marks[..i] == marks;
    var p := 0;
    while p < 7
      invariant 0 <= p <= 7
      invariant f.Valid() && f.start == old(f.start) && old(f.file) <= f.file
      invariant f.whole + f.tail == marks + Zeros(p)
    {
      f.AddBit(false);
      assert marks + Zeros(p) + [false] == marks + Zeros(p + 1);
      p := p + 1;
    }
  }

  method MakePrl(image0: seq<byte>, image1: seq<byte>, header: seq<byte>) returns (file: seq<byte>)
    ensures IsPrl(file, image0, image1, header)
  {
    var padded := PadHeader(header);
    var f := new PrlFile(padded, image1);
    ghost var start := f.start;
    WriteBitmap(f, image0, image1);
    var count := |image1|;
    file := f.file[1 := ByteOf(count % 256)][2 := ByteOf(count / 256 % 256)];
    ghost var marks := Marks(image0, image1);
    ghost var bits := marks + Zeros(7);
    assert file[start..] == f.file[start..];
    assert f.whole == bits[..|f.whole|];
    assert |f.whole| == 8 * ((|marks| + 7) / 8);
    forall i | 0 <= i < |f.whole|
      ensures BitAt(file, start, i) == (i < |marks| && marks[i])
    {
      assert BitAt(f.file[start..], 0, i) == f.whole[i] == bits[i];
    }
    assert file[HEADER_SIZE..start] == f.file[HEADER_SIZE..start] == image1;
  }

  // ---- PageReloc ----

  function Double(l: byte): byte {
    l << 1
  }

  predicate Carry(l: byte) {
    l & 0x80 != 0
  }

  /** The map byte after `k` rotations, zeros coming in. */
  function Rotated(b: byte, k: nat): byte {
    if k == 0 then b else Double(Rotated(b, k - 1))
  }

  lemma DoubleShifts(x: byte, j: nat)
    requires j < 7
    ensures Bit(Double(x), j) == Bit(x, j + 1)
  {
  }

  lemma {:induction false} RotatedShowsBit(b: byte, k: nat, j: nat)
    requires k + j < 8
    ensures Bit(Rotated(b, k), j) == Bit(b, k + j)
  {
    if k > 0 {
      DoubleShifts(Rotated(b, k - 1), j);
      RotatedShowsBit(b, k - 1, j + 1);
    }
  }

  /** Where the parts of the file at `hl` are, and that they fit. The load area
      may overlap the file, so long as it does not begin inside the image or
      the bitmap. */
  predicate Fits(bc: word, de: word, hl: word) {
    && de % 256 == 0 && de + bc <= 0x1_0000
    && hl + HEADER_SIZE + bc + (bc + 7) / 8 <= 0x1_0000
    && (de <= hl + HEADER_SIZE || hl + HEADER_SIZE + bc + (bc + 7) / 8 <= de)
  }

  /** The map byte that holds the bit of image byte `i`. */
  function MapByte(was: Memory, bc: word, de: word, hl: word, i: nat): byte
    requires Fits(bc, de, hl) && i < bc
  {
    was[hl + HEADER_SIZE + bc + i / 8]
  }

  /** Byte `i` of the image at `hl + 256`, with `page - 1` added if the bitmap
      behind the image marks it. */
  function RelocatedByte(was: Memory, bc: word, de: word, hl: word, i: nat): byte
    requires Fits(bc, de, hl) && i < bc
  {
    var b := was[hl + HEADER_SIZE + i];
    if Bit(MapByte(was, bc, de, hl, i), i % 8) then b + (High(de) - 1) else b
  }

  lemma StartsAt(a: word, n: word)
    requires a + n <= 0x1_0000
    ensures Wrap(a) == a
  {
  }

  /** A pointer that runs from `from` wraps at the end of memory at most. */
  lemma NextTo(to: word, from: word, n: word, i: nat)
    requires i < n && to == from + i && from + n <= 0x1_0000
    ensures i + 1 < n ==> Inc(to) == from + (i + 1)
    ensures Inc(to) == Wrap(from + (i + 1))
  {
  }

  method Ldir(mem: array<byte>, bc: word, de: word, hl: word) returns (hl': word)
    requires mem.Length == 0x1_0000
    requires de + bc <= 0x1_0000 && hl + bc <= 0x1_0000 && (de <= hl || hl + bc <= de || bc == 0)
    modifies mem
    ensures forall a :: 0 <= a < 0x1_0000 ==>
              mem[a] == if de <= a < de + bc then old(mem[hl + (a - de)]) else old(mem[a])
    ensures hl' == Wrap(hl + bc)
  {
    hide Wrap, Inc;
    var left: word, to: word, from: word := bc, de, hl;
    ghost var i := 0;
    StartsAt(hl, bc);
    while left != 0
      invariant 0 <= i == bc - left
      invariant i < bc ==> to == de + i && from == hl + i
      invariant from == Wrap(hl + i)
      invariant forall a :: 0 <= a < 0x1_0000 ==>
                  mem[a] == if de <= a < de + i then old(mem[hl + (a - de)]) else old(mem[a])
      decreases left
    {
      left := left - 1;
      mem[to] := mem[from];
      NextTo(to, de, bc, i);
      NextTo(from, hl, bc, i);
      from, to := Inc(from), Inc(to);
      i := i + 1;
    }
    hl' := from;
  }

  /** The byte at `a` when `i` bytes of the copied image are relocated. */
  function LoadedAt(was: Memory, bc: word, de: word, hl: word, i: nat, a: word): byte
    requires Fits(bc, de, hl) && i <= bc
  {
    if de <= a < de + i then RelocatedByte(was, bc, de, hl, a - de)
    else if de <= a < de + bc then was[hl + HEADER_SIZE + (a - de)]
    else was[a]
  }

  ghost predicate RelocatedUpTo(m: Memory, was: Memory, bc: word, de: word, hl: word, i: nat)
    requires Fits(bc, de, hl) && i <= bc
  {
    forall a: word :: m[a] == LoadedAt(was, bc, de, hl, i, a)
  }

  lemma RelocatedOneMore(m: Memory, was: Memory, bc: word, de: word, hl: word, i: nat)
    requires Fits(bc, de, hl) && i < bc && RelocatedUpTo(m, was, bc, de, hl, i)
    ensures RelocatedUpTo(m[de + i := RelocatedByte(was, bc, de, hl, i)], was, bc, de, hl, i + 1)
    ensures m[de + i] == was[hl + HEADER_SIZE + i]
    ensures m[hl + HEADER_SIZE + bc + i / 8] == MapByte(was, bc, de, hl, i)
  {
  }

  lemma CarryIsMapBit(l: byte, b: byte, k: nat)
    requires k < 8 && l == Rotated(b, k)
    ensures Carry(l) == Bit(b, k)
  {
    RotatedShowsBit(b, k, 0);
  }

  /** L holds what is left of the map byte for image byte `i`. */
  predicate Ready(l: byte, was: Memory, bc: word, de: word, hl: word, i: nat)
    requires Fits(bc, de, hl)
  {
    i < bc && i % 8 != 0 ==> l == Rotated(MapByte(was, bc, de, hl, i), i % 8)
  }

  lemma ReadyNext(l: byte, was: Memory, bc: word, de: word, hl: word, i: nat)
    requires Fits(bc, de, hl) && i < bc
    requires l == Rotated(MapByte(was, bc, de, hl, i), i % 8 + 1)
    ensures Ready(l, was, bc, de, hl, i + 1)
  {
    BitCounter(de, i);
  }

  /** Test a bit of the map and relocate one byte. */
  method RelocateByte(mem: array<byte>, to: word, l: byte, h: byte,
                      ghost was: Memory, ghost bc: word, ghost de: word, ghost hl: word, ghost i: nat)
    returns (l': byte)
    requires mem.Length == 0x1_0000 && Fits(bc, de, hl) && i < bc && to == de + i
    requires RelocatedUpTo(mem[..], was, bc, de, hl, i)
    requires h == High(de) - 1 && l == Rotated(MapByte(was, bc, de, hl, i), i % 8)
    modifies mem
    ensures RelocatedUpTo(mem[..], was, bc, de, hl, i + 1)
    ensures Ready(l', was, bc, de, hl, i + 1)
  {
    hide RelocatedUpTo, MapByte, Ready, Fits, Carry, High, Bit;
    ghost var m := mem[..];
    RelocatedOneMore(m, was, bc, de, hl, i);
    CarryIsMapBit(l, MapByte(was, bc, de, hl, i), i % 8);
    if Carry(l) {
      mem[to] := mem[to] + h;
    }
    l' := Double(l);
    ReadyNext(l', was, bc, de, hl, i);
    assert mem[..] == m[to := RelocatedByte(was, bc, de, hl, i)];
  }

  lemma Octet(x: nat, q: nat, r: nat)
    requires r < 8 && x == 8 * q + r
    ensures x / 8 == q && x % 8 == r
  {
  }

  /** The low three bits of the code pointer count the bits of a map byte. */
  lemma BitCounter(de: word, i: nat)
    requires de % 256 == 0
    ensures (de + i) % 256 % 8 == i % 8
    ensures (i + 7) / 8 == if i % 8 == 0 then i / 8 else i / 8 + 1
    ensures (i + 8) / 8 == i / 8 + 1
    ensures i % 8 < 7 ==> (i + 1) / 8 == i / 8 && (i + 1) % 8 == i % 8 + 1
    ensures i % 8 == 7 ==> (i + 1) % 8 == 0
  {
    var q, r, n := i / 8, i % 8, de + i;
    Octet(n % 256, 32 * (de / 256) - 32 * (n / 256) + q, r);
    Octet(i + 8, q + 1, r);
    if r == 0 {
      Octet(i + 7, q, 7);
    } else {
      Octet(i + 7, q + 1, r - 1);
    }
    if r < 7 {
      Octet(i + 1, q, r + 1);
    } else {
      Octet(i + 1, q + 1, 0);
    }
  }

  /** The map pointer before image byte `i`. */
  function MapPointer(bc: word, hl: word, i: nat): word {
    Wrap(hl + HEADER_SIZE + bc + (i + 7) / 8)
  }

  lemma MapPointerAt(bc: word, de: word, hl: word, i: nat)
    requires Fits(bc, de, hl) && i < bc
    ensures i % 8 == 0 ==>
      && MapPointer(bc, hl, i) == hl + HEADER_SIZE + bc + i / 8
      && MapPointer(bc, hl, i + 1) == Inc(MapPointer(bc, hl, i))
    ensures i % 8 != 0 ==> MapPointer(bc, hl, i + 1) == MapPointer(bc, hl, i)
  {
    BitCounter(de, i);
  }

  /** Read a map byte whenever the code pointer crosses a multiple of eight. */
  method NextMapByte(mem: array<byte>, bitmap: word, to: word, l: byte,
                     ghost was: Memory, ghost bc: word, ghost de: word, ghost hl: word, ghost i: nat)
    returns (l': byte, bitmap': word)
    requires mem.Length == 0x1_0000 && Fits(bc, de, hl) && i < bc && to == de + i
    requires RelocatedUpTo(mem[..], was, bc, de, hl, i)
    requires bitmap == MapPointer(bc, hl, i)
    requires Ready(l, was, bc, de, hl, i)
    ensures l' == Rotated(MapByte(was, bc, de, hl, i), i % 8)
    ensures bitmap' == MapPointer(bc, hl, i + 1)
  {
    hide Wrap, RelocatedUpTo;
    l', bitmap' := l, bitmap;
    BitCounter(de, i);
    RelocatedOneMore(mem[..], was, bc, de, hl, i);
    MapPointerAt(bc, de, hl, i);
    if to % 256 % 8 == 0 {
      l' := mem[bitmap];
      bitmap' := Inc(bitmap);
    }
  }

  method CopyImage(mem: array<byte>, bc: word, de: word, hl: word) returns (bitmap: word)
    requires mem.Length == 0x1_0000 && Fits(bc, de, hl)
    modifies mem
    ensures RelocatedUpTo(mem[..], old(mem[..]), bc, de, hl, 0)
    ensures bitmap == MapPointer(bc, hl, 0)
  {
    hide Wrap, MapPointer, RelocatedUpTo;
    ghost var was := mem[..];
    FileFits(bc, de, hl);
    bitmap := Ldir(mem, bc, de, Wrap(hl + HEADER_SIZE));
    CopiedOnly(mem[..], was, bc, de, hl);
  }

  lemma CopiedOnly(m: Memory, was: Memory, bc: word, de: word, hl: word)
    requires Fits(bc, de, hl)
    requires forall a: word :: m[a] == if de <= a < de + bc then was[hl + HEADER_SIZE + (a - de)] else was[a]
    ensures RelocatedUpTo(m, was, bc, de, hl, 0)
  {
  }

  /** The pointers into the file do not wrap while they are used. */
  lemma FileFits(bc: word, de: word, hl: word)
    requires Fits(bc, de, hl)
    ensures bc > 0 ==> Wrap(hl + HEADER_SIZE) == hl + HEADER_SIZE
    ensures bc == 0 ==> Wrap(hl + HEADER_SIZE) + bc <= 0x1_0000
    ensures Wrap(Wrap(hl + HEADER_SIZE) + bc) == MapPointer(bc, hl, 0)
    ensures de <= Wrap(hl + HEADER_SIZE) || Wrap(hl + HEADER_SIZE) + bc <= de || bc == 0
  {
  }

  lemma StartsReady(was: Memory, bc: word, de: word, hl: word)
    requires Fits(bc, de, hl)
    ensures Ready(0, was, bc, de, hl, 0)
  {
  }

  /** PageReloc. H holds the page to add and L the rotating map byte; the
      pointer into the map lives on top of the stack. */
  method PageReloc(mem: array<byte>, bc: word, de: word, hl: word)
    requires mem.Length == 0x1_0000 && Fits(bc, de, hl)
    modifies mem
    ensures RelocatedUpTo(mem[..], old(mem[..]), bc, de, hl, bc)
  {
    hide Wrap, Inc, RelocatedUpTo, Ready, MapPointer;
    StartsReady(mem[..], bc, de, hl);
    ghost var was := mem[..];
    var bitmap := CopyImage(mem, bc, de, hl);
    var h, l: byte := High(de) - 1, 0;
    var left: word, to: word := bc, 256 * (de / 256);
    ghost var i := 0;
    while left != 0
      invariant 0 <= i == bc - left
      invariant i < bc ==> to == de + i
      invariant bitmap == MapPointer(bc, hl, i)
      invariant Ready(l, was, bc, de, hl, i)
      invariant RelocatedUpTo(mem[..], was, bc, de, hl, i)
      decreases left
    {
      left := left - 1;
      l, bitmap := NextMapByte(mem, bitmap, to, l, was, bc, de, hl, i);
      l := RelocateByte(mem, to, l, h, was, bc, de, hl, i);
      NextTo(to, de, bc, i);
      to := Inc(to);
      i := i + 1;
    }
  }

  // ---- build, then load ----

  /** A program in which `pages` marks the bytes that hold a page number
      relative to the load page. */
  datatype Object = Object(code: seq<byte>, pages: seq<bool>)

  /** The program linked to run at `page`. */
  function Linked(o: Object, page: byte): (image: seq<byte>)
    requires |o.code| == |o.pages|
  {
    seq(|o.code|, i requires 0 <= i < |o.code| => if o.pages[i] then o.code[i] + page else o.code[i])
  }

  lemma LoadedByte(o: Object, header: seq<byte>, file: seq<byte>, was: Memory, de: word, hl: word, i: nat)
    requires i < |o.code| == |o.pages| < 0x1_0000 && Fits(|o.code|, de, hl)
    requires IsPrl(file, Linked(o, 0), Linked(o, 1), header)
    requires hl + |file| <= 0x1_0000 && was[hl..hl + |file|] == file
    ensures RelocatedByte(was, |o.code|, de, hl, i) == Linked(o, High(de))[i]
  {
    var n := |o.code|;
    assert file[HEADER_SIZE..HEADER_SIZE + n][i] == Linked(o, 1)[i];
    assert was[hl..hl + |file|][HEADER_SIZE + i] == file[HEADER_SIZE + i];
    assert was[hl..hl + |file|][HEADER_SIZE + n + i / 8] == file[HEADER_SIZE + n + i / 8];
    assert BitAt(file, HEADER_SIZE + n, i) == o.pages[i];
  }

  /** Loading what makeprl made of the images linked at pages 0 and 1 yields
      the program linked at the load page. */
  lemma LoadedIsLinked(o: Object, header: seq<byte>, file: seq<byte>, was: Memory, m: Memory, de: word, hl: word)
    requires |o.code| == |o.pages| < 0x1_0000 && Fits(|o.code|, de, hl)
    requires IsPrl(file, Linked(o, 0), Linked(o, 1), header)
    requires hl + |file| <= 0x1_0000 && was[hl..hl + |file|] == file
    requires RelocatedUpTo(m, was, |o.code|, de, hl, |o.code|)
    ensures m[de..de + |o.code|] == Linked(o, High(de))
    ensures forall a: word :: !(de <= a < de + |o.code|) ==> m[a] == was[a]
  {
    forall i | 0 <= i < |o.code|
      ensures m[de + i] == Linked(o, High(de))[i]
    {
      LoadedByte(o, header, file, was, de, hl, i);
    }
  }

  /** Any two images that differ by one wherever they differ are a program
      linked at pages 0 and 1. */
  predicate OnePageApart(image0: seq<byte>, image1: seq<byte>) {
    |image0| == |image1| && forall i :: 0 <= i < |image0| ==> image1[i] == image0[i] || image1[i] == image0[i] + 1
  }

  /** Building the file from two such images and loading it adds the load page
      to the bytes in which they differ, and leaves the others alone. */
  lemma PrlRoundTrip(image0: seq<byte>, image1: seq<byte>, header: seq<byte>, file: seq<byte>,
                     was: Memory, m: Memory, de: word, hl: word)
    requires OnePageApart(image0, image1) && |image0| < 0x1_0000 && Fits(|image0|, de, hl)
    requires IsPrl(file, image0, image1, header)
    requires hl + |file| <= 0x1_0000 && was[hl..hl + |file|] == file
    requires RelocatedUpTo(m, was, |image0|, de, hl, |image0|)
    ensures forall i :: 0 <= i < |image0| ==>
              m[de + i] == if image1[i] == image0[i] then image0[i] else image0[i] + High(de)
    ensures forall a: word :: !(de <= a < de + |image0|) ==> m[a] == was[a]
  {
    hide IsPrl, RelocatedUpTo, High, OnePageApart, Linked;
    var n, page := |image0|, High(de);
    var o := ObjectOf(image0, image1);
    LoadedIsLinked(o, header, file, was, m, de, hl);
    forall i | 0 <= i < n
      ensures m[de + i] == if image1[i] == image0[i] then image0[i] else image0[i] + page
    {
      assert m[de + i] == m[de..de + n][i];
      LinkedAt(image0, image1, page, i);
    }
  }

  /** The program of which the images are two links. */
  function ObjectOf(image0: seq<byte>, image1: seq<byte>): (o: Object)
    requires OnePageApart(image0, image1)
    ensures |o.code| == |o.pages| == |image0| == |image1|
    ensures Linked(o, 0) == image0 && Linked(o, 1) == image1
  {
    var o := Object(image0, Marks(image0, image1));
    assert Linked(o, 0) == image0 && Linked(o, 1) == image1;
    o
  }

  lemma LinkedAt(image0: seq<byte>, image1: seq<byte>, page: byte, i: nat)
    requires OnePageApart(image0, image1) && i < |image0|
    ensures Linked(ObjectOf(image0, image1), page)[i] == if image1[i] == image0[i] then image0[i] else image0[i] + page
  {
  }
}
