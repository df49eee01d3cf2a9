/**
 * Register-level vocabulary shared by the address-filter and the link models of
 * the ENETC v4 physical function: 32-bit register values, bit fields with the
 * semantics of the kernel's u32_replace_bits(), the port's register file, and
 * the trace of everything the driver sends to the hardware (register writes,
 * MAC address filter table commands on the control ring, and the link-state
 * notifications handed to the MAC Merge layer).
 *
 * A register value is the set of positions of its 1 bits, so that the C
 * bitwise operators become set operations (& is *, | is +, & ~ is -). Bit
 * positions come from a register header that is not part of this model, so
 * every field is an abstract mask and every value that the header places
 * into a field is given already placed (shifted into position).
 */
module Registers {

  datatype Option<T> = None | Some(value: T)

  /** A bit position of a 32-bit register. */
  type BitPos = i: nat | i < 32

  /** A 32-bit register value, as the set of the positions of its 1 bits. */
  type Word = set<BitPos>

  /** An octet and an IEEE 802 MAC address: six octets, the first one transmitted first. */
  type Octet = x: nat | x < 256
  type MacAddr = a: seq<Octet> | |a| == 6 witness [0, 0, 0, 0, 0, 0]

  /** Bit i of the binary representation of n. */
  function BitOf(n: nat, i: nat): bool
    decreases i
  {
    if i == 0 then n % 2 == 1 else BitOf(n / 2, i - 1)
  }

  /**
   * The 32-bit word a C integer becomes when it is stored in a u32: its value
   * modulo 2^32 (two's complement for a negative int), bit by bit.
   */
  function WordOf(n: int): Word {
    set i: BitPos | BitOf(n % 0x1_0000_0000, i)
  }

  /** 2 to the power k. */
  function Pow2(k: nat): (p: nat)
    ensures p >= 1
  {
    if k == 0 then 1 else 2 * Pow2(k - 1)
  }

  /**
   * The number held by the k bits of w from bit lo upwards: what a read of
   * that part of the register returns.
   */
  function WordNat(w: Word, lo: nat, k: nat): (n: nat)
    requires lo + k <= 32
    ensures n < Pow2(k)
    decreases k
  {
    if k == 0 then 0 else (if lo in w then 1 else 0) + 2 * WordNat(w, lo + 1, k - 1)
  }

  /** The low k bits of n read back as a number: n modulo 2^k. */
  lemma {:induction false} WordNatBits(w: Word, lo: nat, k: nat, n: nat)
    requires lo + k <= 32
    requires forall j :: 0 <= j < k ==> (BitOf(n, j) <==> lo + j in w)
    ensures WordNat(w, lo, k) == n % Pow2(k)
    decreases k
  {
    if k > 0 {
      forall j | 0 <= j < k - 1 ensures BitOf(n / 2, j) <==> lo + 1 + j in w {
        assert BitOf(n, j + 1) == BitOf(n / 2, j);
      }
      WordNatBits(w, lo + 1, k - 1, n / 2);
      assert BitOf(n, 0) <==> lo + 0 in w;
      ModPow2Step(n, k);
    }
  }

  /** n mod 2^k is its lowest bit plus twice (n / 2) mod 2^(k-1). */
  lemma ModPow2Step(n: nat, k: nat)
    requires k > 0
    ensures n % Pow2(k) == n % 2 + 2 * ((n / 2) % Pow2(k - 1))
  {
    var p := Pow2(k - 1);
    var q := (n / 2) / p;
    var r := (n / 2) % p;
    assert n / 2 == q * p + r;
    assert n == (n / 2) * 2 + n % 2;
    assert n == q * (2 * p) + (2 * r + n % 2);
    assert 0 <= 2 * r + n % 2 < 2 * p;
    assert Pow2(k) == 2 * p;
    DivModUnique(n, 2 * p, q, 2 * r + n % 2);
  }

  /** The remainder is determined by any decomposition with a remainder in range. */
  lemma DivModUnique(n: int, d: int, q: int, r: int)
    requires d > 0 && 0 <= r < d && n == q * d + r
    ensures n % d == r
  {
    var q0 := n / d;
    var r0 := n % d;
    assert n == q0 * d + r0;
    if q > q0 {
      MulAtLeast(q - q0, d);
    } else if q < q0 {
      MulAtLeast(q0 - q, d);
    }
  }

  lemma {:induction false} MulAtLeast(a: int, d: int)
    requires a >= 1 && d > 0
    ensures a * d >= d
    decreases a
  {
    if a > 1 {
      MulAtLeast(a - 1, d);
      assert a * d == (a - 1) * d + d;
    }
  }

  /** A register written with a number below 2^k reads back that number from its low k bits. */
  lemma WordNatOf(n: nat, k: nat)
    requires k <= 32 && n < Pow2(k)
    ensures WordNat(WordOf(n), 0, k) == n
  {
    Pow2Mono(k, 32);
    Pow2Of32();
    var w := WordOf(n);
    DivModUnique(n, 0x1_0000_0000, 0, n);
    forall j | 0 <= j < k ensures BitOf(n, j) <==> 0 + j in w {
    }
    WordNatBits(w, 0, k, n);
    DivModUnique(n, Pow2(k), 0, n);
  }

  lemma Pow2Mono(a: nat, b: nat)
    requires a <= b
    ensures Pow2(a) <= Pow2(b)
    decreases b
  {
    if a < b {
      Pow2Mono(a, b - 1);
    }
  }

  /** The register widths the driver reads: 2^8, 2^16 and 2^32. */
  lemma Pow2Of32()
    ensures Pow2(8) == 0x100 && Pow2(16) == 0x1_0000 && Pow2(32) == 0x1_0000_0000
  {
    assert Pow2(8) == 0x100;
    Pow2Add(8, 8);
    Pow2Add(16, 16);
  }

  lemma Pow2Add(a: nat, b: nat)
    ensures Pow2(a + b) == Pow2(a) * Pow2(b)
    decreases a
  {
    if a > 0 {
      Pow2Add(a - 1, b);
    }
  }

  /**
   * u32_replace_bits(v, x, mask), where `placed` is x already shifted into the
   * field: the field takes the new value and every bit outside it is kept.
   */
  function ReplaceBits(v: Word, mask: Word, placed: Word): (r: Word)
    ensures r * mask == placed * mask
    ensures r - mask == v - mask
  {
    (v - mask) + (placed * mask)
  }

  /**
   * u32_replace_bits(v, on ? 1 : 0, mask) for a one-bit field, and the
   * `val |= bits` / `val &= ~bits` pair: the bits are set exactly when `on`,
   * every other bit is kept.
   */
  function ReplaceFlag(v: Word, mask: Word, on: bool): (r: Word)
    ensures r * mask == (if on then mask else {})
    ensures r - mask == v - mask
  {
    if on then v + mask else v - mask
  }

  /** A field replacement changes nothing exactly when the field already holds the value. */
  lemma ReplaceBitsUnchanged(v: Word, mask: Word, placed: Word)
    ensures ReplaceBits(v, mask, placed) == v <==> v * mask == placed * mask
  {
  }

  /** A flag replacement changes nothing exactly when the flag bits already hold the value. */
  lemma ReplaceFlagUnchanged(v: Word, mask: Word, on: bool)
    ensures ReplaceFlag(v, mask, on) == v <==> v * mask == (if on then mask else {})
  {
    if v * mask == (if on then mask else {}) {
      assert ReplaceFlag(v, mask, on) == v by {
        forall i | i in mask ensures i in v <==> on {
          assert i in v <==> i in v * mask;
        }
      }
    }
  }

  /** Replacing two disjoint flags gives the same word in either order. */
  lemma ReplaceFlagCommute(v: Word, m1: Word, on1: bool, m2: Word, on2: bool)
    requires m1 !! m2
    ensures ReplaceFlag(ReplaceFlag(v, m1, on1), m2, on2) == ReplaceFlag(ReplaceFlag(v, m2, on2), m1, on1)
  {
    var a := ReplaceFlag(ReplaceFlag(v, m1, on1), m2, on2);
    var b := ReplaceFlag(ReplaceFlag(v, m2, on2), m1, on1);
    forall i | i in m1 ensures i !in m2 {
      assert i in m2 ==> i in m1 * m2;
    }
    assert a == b;
  }

  /** Replacing a field leaves every field disjoint from it as it was. */
  lemma ReplaceBitsKeepsDisjoint(v: Word, mask: Word, placed: Word, other: Word)
    requires mask !! other
    ensures ReplaceBits(v, mask, placed) * other == v * other
  {
    var r := ReplaceBits(v, mask, placed);
    forall i | i in other ensures i in r <==> i in v {
      assert i in mask ==> i in mask * other;
    }
  }

  lemma ReplaceFlagKeepsDisjoint(v: Word, mask: Word, on: bool, other: Word)
    requires mask !! other
    ensures ReplaceFlag(v, mask, on) * other == v * other
  {
    var r := ReplaceFlag(v, mask, on);
    forall i | i in other ensures i in r <==> i in v {
      assert i in mask ==> i in mask * other;
    }
  }

  /** The registers of the port this model touches (names as in the hardware manual). */
  datatype RegId =
    | PCR                     // port configuration: PSPEED
    | PM_IF_MODE              // MAC 0 interface mode
    | PM_CMD_CFG              // MAC 0 command and configuration
    | PM_PAUSE_QUANTA         // MAC 0 PAUSE quanta
    | PM_PAUSE_THRESH         // MAC 0 PAUSE refresh threshold
    | PPAUONTR                // port PAUSE-on FIFO threshold
    | PPAUOFFTR               // port PAUSE-off FIFO threshold
    | RBMR(ring: nat)         // RX ring mode register of one RX BD ring
    | PSIPMMR                 // SI MAC promiscuous mode
    | PSIUMHFR0(si: nat)      // SI unicast hash filter, low word
    | PSIUMHFR1(si: nat)      // SI unicast hash filter, high word
    | PSIMMHFR0(si: nat)      // SI multicast hash filter, low word
    | PSIMMHFR1(si: nat)      // SI multicast hash filter, high word
    | PSICFGR0(si: nat)       // SI configuration 0: BD ring counts
    | PSICFGR2(si: nat)       // SI configuration 2: MSI-X vector count
    | PSIVLANFMR              // SI VLAN filter mode
    | PSIPVMR                 // SI VLAN promiscuous mode
    | PM_MAXFRM               // MAC 0 maximum frame length
    | PTCTMSDUR(tc: nat)      // per traffic class maximum SDU
    | PSIVLANR(si: nat)       // SI port-based VLAN
    | PMAR0 | PMAR1           // port primary MAC address (SI 0)
    | PSIPMAR0(si: nat) | PSIPMAR1(si: nat)  // SI primary MAC address

  /** What the driver sends to the hardware, in order. */
  datatype Event =
    | RegWrite(reg: RegId, val: Word)                       // a 32-bit (or zero-extended 16-bit) write
    | MaftDelete(index: nat)                                // ntmp_maft_delete_entry
    | MaftAdd(index: nat, addr: MacAddr, siBitmap: Word)    // ntmp_maft_add_entry
    | MmLinkState(up: bool)                                 // enetc_mm_link_state_update

  /**
   * The hardware as the driver sees it: the current register values and the
   * trace of operations issued so far. A register never written reads as 0 (no bit set).
   */
  datatype Hw = Hw(regs: map<RegId, Word>, trace: seq<Event>) {

    function Rd(r: RegId): Word {
      if r in regs then regs[r] else {}
    }

    function Wr(r: RegId, v: Word): (h: Hw)
      ensures h.Rd(r) == v && r in h.regs
      ensures h.trace == trace + [RegWrite(r, v)]
    {
      Hw(regs[r := v], trace + [RegWrite(r, v)])
    }

    /** The "read old value, write only if it changed" discipline of the driver. */
    function WrIfChanged(r: RegId, v: Word): (h: Hw)
      ensures h.Rd(r) == v
      ensures v == Rd(r) ==> h == this
      ensures v != Rd(r) ==> h.trace == trace + [RegWrite(r, v)]
    {
      if v == Rd(r) then this else Wr(r, v)
    }

    function Log(e: Event): (h: Hw)
      ensures h.regs == regs && h.trace == trace + [e]
    {
      Hw(regs, trace + [e])
    }
  }

  /** Every register outside `touched` reads the same in `a` and `b`. */
  ghost predicate SameOutside(a: Hw, b: Hw, touched: set<RegId>) {
    forall q :: q !in touched ==> a.Rd(q) == b.Rd(q)
  }

  /** A write changes the written register only. */
  lemma WrFrame(h: Hw, r: RegId, v: Word)
    ensures SameOutside(h.Wr(r, v), h, {r})
    ensures SameOutside(h.WrIfChanged(r, v), h, {r})
  {
  }

  lemma SameOutsideTrans(a: Hw, b: Hw, c: Hw, s1: set<RegId>, s2: set<RegId>)
    requires SameOutside(a, b, s1) && SameOutside(b, c, s2)
    ensures SameOutside(a, c, s1 + s2)
  {
  }

  /** A register that reads the same in both states can be dropped from the touched set. */
  lemma SameOutsideShrink(a: Hw, b: Hw, touched: set<RegId>, r: RegId)
    requires SameOutside(a, b, touched) && a.Rd(r) == b.Rd(r)
    ensures SameOutside(a, b, touched - {r})
  {
  }

  /** Two states that hold the same registers and read the same everywhere have the same register file. */
  lemma SameRegs(a: Hw, b: Hw)
    requires a.regs.Keys == b.regs.Keys && SameOutside(a, b, {})
    ensures a.regs == b.regs
  {
    forall q | q in a.regs ensures a.regs[q] == b.regs[q] {
      assert a.Rd(q) == b.Rd(q);
    }
  }

  /** The same register file reads the same everywhere. */
  lemma SameOutsideRegs(a: Hw, b: Hw, c: Hw, touched: set<RegId>)
    requires SameOutside(a, b, touched) && b.regs == c.regs
    ensures SameOutside(a, c, touched)
  {
  }

  /**
   * The registers regs[0], ..., regs[k-1] written in that order with the
   * values vals[0], ..., vals[k-1]: the body of a driver loop that writes one
   * register per iteration.
   */
  function WriteSeq(h: Hw, regs: seq<RegId>, vals: seq<Word>, k: nat): Hw
    requires k <= |regs| && |regs| == |vals|
    decreases k
  {
    if k == 0 then h else WriteSeq(h, regs, vals, k - 1).Wr(regs[k - 1], vals[k - 1])
  }

  /** The registers among the first k of regs. */
  function FirstRegs(regs: seq<RegId>, k: nat): set<RegId>
    requires k <= |regs|
  {
    set i | 0 <= i < k :: regs[i]
  }

  /**
   * After the loop over distinct registers each holds its value, no other
   * register changes, and the trace holds the k writes in loop order.
   */
  lemma {:induction false} WriteSeqEffect(h: Hw, regs: seq<RegId>, vals: seq<Word>, k: nat)
    requires k <= |regs| && |regs| == |vals|
    requires forall i, j :: 0 <= i < j < |regs| ==> regs[i] != regs[j]
    ensures forall i :: 0 <= i < k ==> WriteSeq(h, regs, vals, k).Rd(regs[i]) == vals[i]
    ensures SameOutside(WriteSeq(h, regs, vals, k), h, FirstRegs(regs, k))
    ensures WriteSeq(h, regs, vals, k).trace
            == h.trace + seq(k, i requires 0 <= i < k => RegWrite(regs[i], vals[i]))
    decreases k
  {
    if k > 0 {
      var h1 := WriteSeq(h, regs, vals, k - 1);
      WriteSeqEffect(h, regs, vals, k - 1);
      WrFrame(h1, regs[k - 1], vals[k - 1]);
      SameOutsideTrans(WriteSeq(h, regs, vals, k), h1, h, {regs[k - 1]}, FirstRegs(regs, k - 1));
      assert {regs[k - 1]} + FirstRegs(regs, k - 1) == FirstRegs(regs, k);
      forall i | 0 <= i < k - 1 ensures WriteSeq(h, regs, vals, k).Rd(regs[i]) == vals[i] {
        assert regs[i] != regs[k - 1];
      }
      assert seq(k, i requires 0 <= i < k => RegWrite(regs[i], vals[i]))
             == seq(k - 1, i requires 0 <= i < k - 1 => RegWrite(regs[i], vals[i])) + [RegWrite(regs[k - 1], vals[k - 1])];
    }
  }

  /** Writing back the value a register already holds leaves the register file as it was. */
  lemma WrSameValue(h: Hw, r: RegId)
    requires r in h.regs
    ensures h.Wr(r, h.Rd(r)).regs == h.regs
  {
  }

  /** A conditional write of a value the register already holds is no operation at all. */
  lemma WrIfChangedTwice(h: Hw, r: RegId, v: Word)
    ensures h.WrIfChanged(r, v).WrIfChanged(r, v) == h.WrIfChanged(r, v)
  {
  }
}
