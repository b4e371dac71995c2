/** Finding out which 16K page each memory slot shows, by writing a fingerprint
    through the slot and mapping one page after another until it turns up. */
module Banks {
  import opened Machine
  import opened GdbState
  import opened Texts

  const PAGES := 128
  const PAGE_SIZE := 0x4000
  const FP_OFF := 0x3FE8

  /** ">ZDBGF?<" */
  const FINGERPRINT: seq<byte> := [0x3E, 0x5A, 0x44, 0x42, 0x47, 0x46, 0x3F, 0x3C]

  type Page = p: nat | p < PAGES

  type Ram = r: seq<byte> | |r| == PAGES * PAGE_SIZE witness seq(PAGES * PAGE_SIZE, _ => 0)

  type Ports = p: seq<Page> | |p| == 3 witness [0, 0, 0]

  function Base(p: Page): nat {
    p * PAGE_SIZE + FP_OFF
  }

  /** The eight bytes of page `p` that the fingerprint replaces. */
  function Block(r: Ram, p: Page): (b: seq<byte>) {
    r[Base(p)..Base(p) + 8]
  }

  function PutBlock(r: Ram, p: Page, b: seq<byte>): Ram
    requires |b| == 8
  {
    r[..Base(p)] + b + r[Base(p) + 8..]
  }

  /** The lowest page from `q` on that shows the fingerprint, `p` at the latest. */
  function Lowest(r: Ram, p: Page, q: Page): Page
    requires q <= p
    decreases p - q
  {
    if q == p || Block(r, q) == FINGERPRINT then q else Lowest(r, p, q + 1)
  }

  /** Memory after probing a slot that shows page `p`. */
  function ProbedRam(r: Ram, p: Page): Ram {
    var q := Lowest(r, p, 0);
    if q == p then r else PutBlock(PutBlock(r, p, FINGERPRINT), q, Block(r, p))
  }

  function Probed(r: Ram, ports: Ports, slot: nat): (Ram, Ports)
    requires slot < 3
  {
    (ProbedRam(r, ports[slot]), ports[slot := Lowest(r, ports[slot], 0)])
  }

  function ProbedFirst(r: Ram, ports: Ports, n: nat): (Ram, Ports)
    requires n <= 3
  {
    if n == 0 then (r, ports)
    else
      var (r', ports') := ProbedFirst(r, ports, n - 1);
      Probed(r', ports', n - 1)
  }

  // ---- blocks ----

  lemma BlockOfPut(r: Ram, p: Page, b: seq<byte>, q: Page)
    requires |b| == 8
    ensures Block(PutBlock(r, p, b), q) == if q == p then b else Block(r, q)
  {
    if q < p {
      assert Base(q) + 8 <= Base(p);
    } else if q > p {
      assert Base(p) + 8 <= Base(q);
    }
  }

  lemma PutBack(r: Ram, p: Page, b: seq<byte>)
    requires |b| == 8
    ensures PutBlock(PutBlock(r, p, b), p, Block(r, p)) == r
  {
  }

  class BankedMemory {
    const ram: array<byte>
    const port: array<Page>
    const regs: array<word>

    ghost predicate Valid() {
      ram.Length == PAGES * PAGE_SIZE && port.Length == 3 && regs.Length == REGISTERS_COUNT
    }

    constructor (registers: array<word>)
      requires registers.Length == REGISTERS_COUNT
      ensures Valid() && regs == registers && fresh(ram) && fresh(port)
    {
      ram := new byte[PAGES * PAGE_SIZE](_ => 0);
      port := new Page[3](_ => 0);
      regs := registers;
    }

    method SetPage(slot: nat, page: Page)
      requires Valid() && slot < 3
      modifies port
      ensures port[..] == old(port[..])[slot := page]
    {
      port[slot] := page;
    }

    /** Read eight bytes through a slot. */
    method ReadBlock(slot: nat) returns (b: seq<byte>)
      requires Valid() && slot < 3
      ensures b == Block(ram[..], port[slot])
    {
      b := [];
      while |b| < 8
        invariant |b| <= 8
        invariant b == ram[Base(port[slot])..Base(port[slot]) + |b|]
      {
        b := b + [ram[port[slot] * PAGE_SIZE + FP_OFF + |b|]];
      }
    }

    /** Write eight bytes through a slot. */
    method WriteBlock(slot: nat, b: seq<byte>)
      requires Valid() && slot < 3 && |b| == 8
      modifies ram
      ensures ram[..] == PutBlock(old(ram[..]), port[slot], b)
    {
      ghost var r, base := ram[..], Base(port[slot]);
      var k := 0;
      while k < 8
        invariant 0 <= k <= 8
        invariant ram[..] == r[..base] + b[..k] + r[base + k..]
      {
        ram[port[slot] * PAGE_SIZE + FP_OFF + k] := b[k];
        k := k + 1;
      }
      assert b[..k] == b;
    }

    method Matches(slot: nat) returns (same: bool)
      requires Valid() && slot < 3
      ensures same == (Block(ram[..], port[slot]) == FINGERPRINT)
    {
      same := true;
      var k := 0;
      ghost var block := Block(ram[..], port[slot]);
      while k < 8
        invariant 0 <= k <= 8
        invariant same && block[..k] == FINGERPRINT[..k]
      {
        if ram[port[slot] * PAGE_SIZE + FP_OFF + k] != FINGERPRINT[k] {
          assert block[k] != FINGERPRINT[k];
          return false;
        }
        k := k + 1;
      }
      assert block == block[..8] && FINGERPRINT == FINGERPRINT[..8];
    }

    /** Map page after page into the slot until the fingerprint shows. The
        page that has it ends the search at the latest. */
    method FindPage(slot: nat, ghost r: Ram, ghost p: Page) returns (page: Page)
      requires Valid() && slot < 3
      requires ram[..] == PutBlock(r, p, FINGERPRINT)
      modifies port
      ensures page == Lowest(r, p, 0) && port[..] == old(port[..])[slot := page]
    {
      ghost var ports := port[..];
      page := 0;
      while true
        invariant page <= p
        invariant port[..] == ports[slot := port[slot]]
        invariant Lowest(r, p, 0) == Lowest(r, p, page)
        decreases p - page
      {
        SetPage(slot, page);
        var found := Matches(slot);
        BlockOfPut(r, p, FINGERPRINT, page);
        if found {
          return;
        }
        page := page + 1;
      }
    }

    method ProbeSlot(slot: nat)
      requires Valid() && slot < 3
      modifies ram, port, regs
      ensures (ram[..], port[..]) == Probed(old(ram[..]), old(port[..]), slot)
      ensures regs[..] == old(regs[..])[SLOT_0 + slot := port[slot]]
    {
      ghost var r, p := ram[..], port[slot];
      var saved := ReadBlock(slot);
      WriteBlock(slot, FINGERPRINT);
      var page := FindPage(slot, r, p);
      regs[SLOT_0 + slot] := page;
      WriteBlock(slot, saved);
      PutBack(r, p, FINGERPRINT);
    }

    method UpdateMappedPages()
      requires Valid()
      modifies ram, port, regs
      ensures (ram[..], port[..]) == ProbedFirst(old(ram[..]), old(port[..]), 3)
      ensures forall i :: 0 <= i < REGISTERS_COUNT ==>
                regs[i] == (if SLOT_0 <= i < SLOT_3 then port[i - SLOT_0] else if i == SLOT_3 then 7 else old(regs[i]))
    {
      ghost var r, ports := ram[..], port[..];
      for slot := 0 to 3
        invariant ProbedFirst(r, ports, slot) == (ram[..], port[..])
        invariant forall i :: 0 <= i < REGISTERS_COUNT ==>
                    regs[i] == (if SLOT_0 <= i < SLOT_0 + slot then port[i - SLOT_0] else old(regs[i]))
      {
        ghost var before, was := port[..], regs[..];
        ProbeSlot(slot);
        assert forall j :: 0 <= j < 3 && j != slot ==> port[..][j] == before[j];
        assert forall i :: 0 <= i < REGISTERS_COUNT && i != SLOT_0 + slot ==> regs[..][i] == was[i];
        assert regs[..][SLOT_0 + slot] == port[slot];
      }
      regs[SLOT_3] := 7;
    }
  }

  /** The fingerprint, and where it goes: offset 3FE8h of a 16K page. */
  lemma FingerprintIs(r: Ram, p: Page)
    ensures FINGERPRINT == Ascii(">ZDBGF?<")
    ensures Block(r, p) == r[0x4000 * p + 0x3FE8..0x4000 * p + 0x3FF0]
  {
    var t := ">ZDBGF?<";
    forall k | 0 <= k < 8
      ensures FINGERPRINT[k] == Code(t[k])
    {
      assert FINGERPRINT[k] as int == t[k] as int;
      SameValue(FINGERPRINT[k], Code(t[k]));
    }
  }

  // ---- when probing leaves no trace ----

  /** No page below `p` ends in the fingerprint. */
  ghost predicate Unambiguous(r: Ram, p: Page) {
    forall q: Page :: q < p ==> Block(r, q) != FINGERPRINT
  }

  lemma {:induction false} LowestExactly(r: Ram, p: Page, q: Page)
    requires q <= p
    ensures Lowest(r, p, q) == p <==> forall q': Page :: q <= q' < p ==> Block(r, q') != FINGERPRINT
    decreases p - q
  {
    if q < p && Block(r, q) != FINGERPRINT {
      LowestExactly(r, p, q + 1);
    }
  }

  lemma {:induction false} IdentityUpTo(r: Ram, ports: Ports, n: nat)
    requires n <= 3
    ensures var (r', ports') := ProbedFirst(r, ports, n);
      && (forall j :: n <= j < 3 ==> ports'[j] == ports[j])
      && (ports' == ports <==> forall j :: 0 <= j < n ==> Unambiguous(r, ports[j]))
      && (ports' == ports ==> r' == r)
  {
    if n > 0 {
      IdentityUpTo(r, ports, n - 1);
      var (r1, ports1) := ProbedFirst(r, ports, n - 1);
      LowestExactly(r1, ports[n - 1], 0);
      var ports' := ProbedFirst(r, ports, n).1;
      assert ports' == ports1[n - 1 := Lowest(r1, ports1[n - 1], 0)];
      if ports' == ports {
        assert forall j :: 0 <= j < 3 && j != n - 1 ==> ports1[j] == ports'[j];
        assert ports1 == ports;
      }
    }
  }

  /** Probing changes neither memory nor mapping exactly if, for every slot, no
      page below the one it shows ends in the fingerprint. */
  lemma ProbeIsIdentityExactly(r: Ram, ports: Ports)
    ensures ProbedFirst(r, ports, 3) == (r, ports)
            <==> forall slot :: 0 <= slot < 3 ==> Unambiguous(r, ports[slot])
  {
    IdentityUpTo(r, ports, 3);
  }
}
