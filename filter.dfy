/**
 * The receive-address filter decision of enetc4_pf_set_rx_mode: promiscuity
 * from the interface flags, the software hash filters, the choice between the
 * exact-match MAC address filter table (MAFT) and the 64-bit hash filter
 * registers, and the register and control-ring operations that install the
 * choice for station interface (SI) 0.
 *
 * The hash index of an address (enetc_mac_addr_hash_idx) is computed in a
 * file that is not part of this model; it is a parameter `hash` everywhere.
 */
module AddressFilter {
  import opened Registers

  /** The two address classes of the filter: unicast and multicast. */
  datatype AddrClass = UC | MC

  /** is_multicast_ether_addr: the I/G bit, the least significant bit of the first octet. */
  predicate IsGroupAddr(a: MacAddr) {
    a[0] % 2 == 1
  }

  /** The index of a bit of the 64-bit hash filter. */
  type HashIdx = k: nat | k < 64

  /** A 64-bit hash bitmap, as the set of the positions of its 1 bits. */
  type HashTable = set<HashIdx>

  /** ENETC_SI_BITMAP(0): the destination SI bitmap of every exact-match entry. */
  const SiBitmap0: Word := {0}

  // ---------------------------------------------------------------------------
  // Software hash filters (struct enetc_mac_filter)
  // ---------------------------------------------------------------------------

  /** The software side of one address class: the 64-bit hash table and the address count. */
  datatype MacFilter = MacFilter(hashTable: HashTable, addrCount: nat)

  /** enetc_reset_mac_addr_filter: no address, no hash bit. */
  const ResetFilter: MacFilter := MacFilter({}, 0)

  /** enetc_add_mac_addr_ht_filter: set the address's hash bit, count the address. */
  function AddHtFilter(f: MacFilter, a: MacAddr, hash: MacAddr -> HashIdx): MacFilter {
    MacFilter(f.hashTable + {hash(a)}, f.addrCount + 1)
  }

  /** The software filter after a reset followed by adding `addrs` in order. */
  function FilterOf(addrs: seq<MacAddr>, hash: MacAddr -> HashIdx): MacFilter
    decreases |addrs|
  {
    if addrs == [] then ResetFilter
    else AddHtFilter(FilterOf(addrs[..|addrs| - 1], hash), addrs[|addrs| - 1], hash)
  }

  /** Every added address is counted, duplicates included. */
  lemma {:induction false} FilterOfCount(addrs: seq<MacAddr>, hash: MacAddr -> HashIdx)
    ensures FilterOf(addrs, hash).addrCount == |addrs|
  {
    if addrs != [] {
      FilterOfCount(addrs[..|addrs| - 1], hash);
    }
  }

  /**
   * The hash table is exactly the OR of the contributions of the added
   * addresses: bit k is set iff some added address hashes to k. In
   * particular no bit survives the reset that starts every rebuild.
   */
  lemma {:induction false} FilterOfBits(addrs: seq<MacAddr>, hash: MacAddr -> HashIdx, k: HashIdx)
    ensures k in FilterOf(addrs, hash).hashTable <==> exists i :: 0 <= i < |addrs| && hash(addrs[i]) == k
  {
    if addrs != [] {
      var init := addrs[..|addrs| - 1];
      var last := addrs[|addrs| - 1];
      FilterOfBits(init, hash, k);
      if exists i :: 0 <= i < |init| && hash(init[i]) == k {
        var i :| 0 <= i < |init| && hash(init[i]) == k;
        assert addrs[i] == init[i];
      }
      if exists i :: 0 <= i < |addrs| && hash(addrs[i]) == k {
        var i :| 0 <= i < |addrs| && hash(addrs[i]) == k;
        if i < |init| {
          assert init[i] == addrs[i];
        }
      }
    }
  }

  /** The multicast list with every non-group address skipped (lines 238-243). */
  function GroupAddrs(addrs: seq<MacAddr>): seq<MacAddr>
    decreases |addrs|
  {
    if addrs == [] then []
    else
      var last := addrs[|addrs| - 1];
      GroupAddrs(addrs[..|addrs| - 1]) + (if IsGroupAddr(last) then [last] else [])
  }

  /** GroupAddrs keeps exactly the group addresses; it keeps all of them iff all are group addresses. */
  lemma {:induction false} GroupAddrsSpec(addrs: seq<MacAddr>)
    ensures forall a :: a in GroupAddrs(addrs) <==> a in addrs && IsGroupAddr(a)
    ensures |GroupAddrs(addrs)| <= |addrs|
    ensures |GroupAddrs(addrs)| == |addrs| <==> forall i :: 0 <= i < |addrs| ==> IsGroupAddr(addrs[i])
  {
    if addrs != [] {
      var init := addrs[..|addrs| - 1];
      var last := addrs[|addrs| - 1];
      GroupAddrsSpec(init);
      assert addrs == init + [last];
      if forall i :: 0 <= i < |addrs| ==> IsGroupAddr(addrs[i]) {
        assert forall i :: 0 <= i < |init| ==> IsGroupAddr(init[i]) by {
          forall i | 0 <= i < |init| ensures IsGroupAddr(init[i]) {
            assert init[i] == addrs[i];
          }
        }
      }
      if |GroupAddrs(addrs)| == |addrs| {
        assert IsGroupAddr(last);
        forall i | 0 <= i < |addrs| ensures IsGroupAddr(addrs[i]) {
          if i < |init| {
            assert addrs[i] == init[i];
          }
        }
      }
    }
  }

  // ---------------------------------------------------------------------------
  // The decision (lines 215-249)
  // ---------------------------------------------------------------------------

  /** The interface flags the decision reads: IFF_PROMISC and IFF_ALLMULTI. */
  datatype NetFlags = NetFlags(promisc: bool, allMulti: bool)

  /** Promiscuity of the unicast and the multicast class. */
  datatype Promisc = Promisc(uc: bool, mc: bool)

  /** IFF_PROMISC makes both classes promiscuous; IFF_ALLMULTI alone only multicast. */
  function PromiscOf(flags: NetFlags): (p: Promisc)
    ensures p.uc <==> flags.promisc
    ensures p.mc <==> flags.promisc || flags.allMulti
  {
    if flags.promisc then Promisc(true, true)
    else if flags.allMulti then Promisc(false, true)
    else Promisc(false, false)
  }

  /** Everything enetc4_pf_set_rx_mode decides before it touches the hardware. */
  datatype RxPlan = RxPlan(promisc: Promisc, ucFilter: MacFilter, mcFilter: MacFilter,
                           numMacs: nat, exactMatch: bool)

  /**
   * The decision: the software filters are rebuilt for the non-promiscuous
   * classes only, `num_macs` counts the addresses of those classes (group
   * addresses only for multicast), and the exact-match table is chosen iff
   * it can hold all of them and there is at least one (inclusive boundary).
   */
  function PlanRxMode(flags: NetFlags, uc: seq<MacAddr>, mc: seq<MacAddr>,
                      macFilterNum: nat, hash: MacAddr -> HashIdx): (p: RxPlan)
    ensures p.promisc == PromiscOf(flags)
    ensures p.ucFilter == if p.promisc.uc then ResetFilter else FilterOf(uc, hash)
    ensures p.mcFilter == if p.promisc.mc then ResetFilter else FilterOf(GroupAddrs(mc), hash)
    ensures p.numMacs == (if p.promisc.uc then 0 else |uc|)
                       + (if p.promisc.mc then 0 else |GroupAddrs(mc)|)
    ensures p.exactMatch <==> 0 < p.numMacs <= macFilterNum
  {
    var pr := PromiscOf(flags);
    var ucf := if pr.uc then ResetFilter else FilterOf(uc, hash);
    var mcf := if pr.mc then ResetFilter else FilterOf(GroupAddrs(mc), hash);
    FilterOfCount(uc, hash);
    FilterOfCount(GroupAddrs(mc), hash);
    var n := (if pr.uc then 0 else ucf.addrCount) + (if pr.mc then 0 else mcf.addrCount);
    RxPlan(pr, ucf, mcf, n, n != 0 && n <= macFilterNum)
  }

  /**
   * The addresses the exact-match branch adds, in order: unicast first, then
   * multicast. As in the source (lines 271-276), the multicast add loop does
   * not skip non-group addresses, unlike the count.
   */
  function ExactEntries(p: RxPlan, uc: seq<MacAddr>, mc: seq<MacAddr>): seq<MacAddr> {
    (if p.promisc.uc then [] else uc) + (if p.promisc.mc then [] else mc)
  }

  /** When every multicast-list address is a group address, exactly `num_macs` entries are added. */
  lemma ExactEntriesCount(flags: NetFlags, uc: seq<MacAddr>, mc: seq<MacAddr>,
                          macFilterNum: nat, hash: MacAddr -> HashIdx)
    requires forall i :: 0 <= i < |mc| ==> IsGroupAddr(mc[i])
    ensures var p := PlanRxMode(flags, uc, mc, macFilterNum, hash);
            |ExactEntries(p, uc, mc)| == p.numMacs
  {
    GroupAddrsSpec(mc);
  }

  // ---------------------------------------------------------------------------
  // Hardware operations (lines 254-298, 689-718)
  // ---------------------------------------------------------------------------

  /** lower_32_bits of the 64-bit hash bitmap */
  function Lo32(t: HashTable): Word {
    set i: BitPos | i in t
  }

  /** upper_32_bits of the 64-bit hash bitmap */
  function Hi32(t: HashTable): Word {
    set k: HashIdx | k in t && k >= 32 :: (k - 32) as BitPos
  }

  /** The 64-bit bitmap made of a low and a high 32-bit word. */
  function Join64(lo: Word, hi: Word): HashTable {
    set k: HashIdx | (k < 32 && k in lo) || (k >= 32 && k in (set i | i in hi :: i + 32))
  }

  /** The two 32-bit halves written to the hash filter registers hold the whole 64-bit table. */
  lemma HashSplitRoundTrip(t: HashTable)
    ensures Join64(Lo32(t), Hi32(t)) == t
  {
    var j := Join64(Lo32(t), Hi32(t));
    forall k | k in t ensures k in j {
      if k >= 32 {
        var i: BitPos := k - 32;
        assert i in Hi32(t);
        assert k in (set i | i in Hi32(t) :: i + 32);
      } else {
        assert k in Lo32(t);
      }
    }
  }

  /** The low and the high hash filter word of one SI and class. */
  function HashLoReg(si: nat, cls: AddrClass): RegId {
    if cls == UC then PSIUMHFR0(si) else PSIMMHFR0(si)
  }

  function HashHiReg(si: nat, cls: AddrClass): RegId {
    if cls == UC then PSIUMHFR1(si) else PSIMMHFR1(si)
  }

  /** enetc4_pf_set_si_mac_filter: low word first, then high word, of the class's hash filter. */
  function SetSiMacFilter(h: Hw, si: nat, cls: AddrClass, hash: HashTable): (r: Hw)
    ensures r.Rd(HashLoReg(si, cls)) == Lo32(hash)
    ensures r.Rd(HashHiReg(si, cls)) == Hi32(hash)
    ensures r.trace == h.trace + [RegWrite(HashLoReg(si, cls), Lo32(hash)),
                                  RegWrite(HashHiReg(si, cls), Hi32(hash))]
    ensures SameOutside(r, h, {HashLoReg(si, cls), HashHiReg(si, cls)})
  {
    h.Wr(HashLoReg(si, cls), Lo32(hash)).Wr(HashHiReg(si, cls), Hi32(hash))
  }

  /**
   * The PSIPMMR bits of one SI (ENETC_PSIPMR_SET_UP / ENETC_PSIPMR_SET_MP);
   * their positions are in the register header.
   */
  datatype PromiscDefs = PromiscDefs(upBit: nat -> Word, mpBit: nat -> Word)

  function PromiscBit(defs: PromiscDefs, si: nat, cls: AddrClass): Word {
    if cls == UC then defs.upBit(si) else defs.mpBit(si)
  }

  /**
   * enetc4_pf_set_si_mac_promisc: read PSIPMMR, set or clear the SI's bit of
   * the class, and write the register back (unconditionally).
   */
  function SetSiMacPromisc(h: Hw, defs: PromiscDefs, si: nat, cls: AddrClass, en: bool): (r: Hw)
    ensures r.Rd(PSIPMMR) == ReplaceFlag(h.Rd(PSIPMMR), PromiscBit(defs, si, cls), en)
    ensures r.trace == h.trace + [RegWrite(PSIPMMR, r.Rd(PSIPMMR))]
    ensures forall q :: q != PSIPMMR ==> r.Rd(q) == h.Rd(q)
  {
    h.Wr(PSIPMMR, ReplaceFlag(h.Rd(PSIPMMR), PromiscBit(defs, si, cls), en))
  }

  /** The delete commands for the entries 0 .. n-1 installed by the previous call. */
  function DeleteLog(n: nat): seq<Event> {
    seq(n, i requires 0 <= i => MaftDelete(i))
  }

  /** The add commands for `addrs` at contiguous indices from `start`, each for SI 0. */
  function AddLog(start: nat, addrs: seq<MacAddr>): seq<Event> {
    seq(|addrs|, i requires 0 <= i < |addrs| => MaftAdd(start + i, addrs[i], SiBitmap0))
  }

  /** One more loop iteration appends one delete command. */
  lemma DeleteLogStep(n: nat)
    ensures DeleteLog(n + 1) == DeleteLog(n) + [MaftDelete(n)]
  {
  }

  /** One more loop iteration appends one add command at the next index. */
  lemma AddLogStep(start: nat, addrs: seq<MacAddr>, k: nat)
    requires k < |addrs|
    ensures AddLog(start, addrs[..k + 1]) == AddLog(start, addrs[..k]) + [MaftAdd(start + k, addrs[k], SiBitmap0)]
  {
  }

  /** Adding two lists in turn, with the index running on, adds their concatenation. */
  lemma AddLogConcat(start: nat, a: seq<MacAddr>, b: seq<MacAddr>)
    ensures AddLog(start, a + b) == AddLog(start, a) + AddLog(start + |a|, b)
  {
  }

  /** Filtering one more address appends it iff it is a group address. */
  lemma GroupAddrsStep(addrs: seq<MacAddr>, k: nat)
    requires k < |addrs|
    ensures GroupAddrs(addrs[..k + 1]) == GroupAddrs(addrs[..k]) + (if IsGroupAddr(addrs[k]) then [addrs[k]] else [])
  {
    assert addrs[..k + 1][..k] == addrs[..k];
  }

  /** Adding one more address to the software filter. */
  lemma FilterOfStep(addrs: seq<MacAddr>, a: MacAddr, hash: MacAddr -> HashIdx)
    ensures FilterOf(addrs + [a], hash) == AddHtFilter(FilterOf(addrs, hash), a, hash)
  {
    assert (addrs + [a])[..|addrs|] == addrs;
  }

  /** The hash-filter values of the two branches (lines 261-262, 282-294). */
  function UcHash(p: RxPlan): HashTable {
    if p.exactMatch || p.promisc.uc then {} else p.ucFilter.hashTable
  }

  function McHash(p: RxPlan): HashTable {
    if p.exactMatch || p.promisc.mc then {} else p.mcFilter.hashTable
  }

  /** The entry count recorded for the next call (lines 279, 281). */
  function NewEntryCount(p: RxPlan): nat {
    if p.exactMatch then p.numMacs else 0
  }

  /**
   * Lines 257-295: in exact-match mode clear both hash filters and add the
   * entries from index 0; otherwise program each hash filter with the
   * class's software table, or with 0 for a promiscuous class.
   */
  function ProgramFilters(h: Hw, p: RxPlan, uc: seq<MacAddr>, mc: seq<MacAddr>): Hw {
    if p.exactMatch then
      var hc := SetSiMacFilter(SetSiMacFilter(h, 0, UC, {}), 0, MC, {});
      Hw(hc.regs, hc.trace + AddLog(0, ExactEntries(p, uc, mc)))
    else
      var ucHash := if p.promisc.uc then {} else p.ucFilter.hashTable;
      var mcHash := if p.promisc.mc then {} else p.mcFilter.hashTable;
      SetSiMacFilter(SetSiMacFilter(h, 0, UC, ucHash), 0, MC, mcHash)
  }

  /** Lines 297-298: the promiscuous bits of both classes, unicast first. */
  function ProgramPromisc(h: Hw, p: RxPlan, defs: PromiscDefs): Hw {
    SetSiMacPromisc(SetSiMacPromisc(h, defs, 0, UC, p.promisc.uc), defs, 0, MC, p.promisc.mc)
  }

  /** The state after the deletes and the table or hash programming of one call. */
  function FiltersStage(h: Hw, numMacFe: nat, p: RxPlan, uc: seq<MacAddr>, mc: seq<MacAddr>): Hw {
    ProgramFilters(Hw(h.regs, h.trace + DeleteLog(numMacFe)), p, uc, mc)
  }

  /**
   * The hardware half of enetc4_pf_set_rx_mode, in program order: delete the
   * `numMacFe` entries installed by the previous call, program the table or
   * the hash filters, then the promiscuous bits.
   */
  function RxModeHw(h: Hw, numMacFe: nat, p: RxPlan, uc: seq<MacAddr>, mc: seq<MacAddr>,
                    defs: PromiscDefs): Hw
  {
    ProgramPromisc(FiltersStage(h, numMacFe, p, uc, mc), p, defs)
  }

  /** The hash filter registers of SI 0. */
  const HashRegs: set<RegId> := {PSIUMHFR0(0), PSIUMHFR1(0), PSIMMHFR0(0), PSIMMHFR1(0)}

  /** The four hash-filter register writes, unicast then multicast. */
  function HashWrites(p: RxPlan): seq<Event> {
    [RegWrite(PSIUMHFR0(0), Lo32(UcHash(p))), RegWrite(PSIUMHFR1(0), Hi32(UcHash(p))),
     RegWrite(PSIMMHFR0(0), Lo32(McHash(p))), RegWrite(PSIMMHFR1(0), Hi32(McHash(p)))]
  }

  /** The table entries the call adds: none in hash mode. */
  function AddedEntries(p: RxPlan, uc: seq<MacAddr>, mc: seq<MacAddr>): seq<Event> {
    if p.exactMatch then AddLog(0, ExactEntries(p, uc, mc)) else []
  }

  /** The values the two promiscuous-register writes carry. */
  function PromiscFirst(v: Word, p: RxPlan, defs: PromiscDefs): Word {
    ReplaceFlag(v, defs.upBit(0), p.promisc.uc)
  }

  function PromiscFinal(v: Word, p: RxPlan, defs: PromiscDefs): Word {
    ReplaceFlag(PromiscFirst(v, p, defs), defs.mpBit(0), p.promisc.mc)
  }

  lemma ProgramFiltersTrace(h: Hw, p: RxPlan, uc: seq<MacAddr>, mc: seq<MacAddr>)
    ensures ProgramFilters(h, p, uc, mc).trace == h.trace + HashWrites(p) + AddedEntries(p, uc, mc)
  {
  }

  lemma ProgramFiltersRegs(h: Hw, p: RxPlan, uc: seq<MacAddr>, mc: seq<MacAddr>)
    ensures ProgramFilters(h, p, uc, mc).Rd(PSIUMHFR0(0)) == Lo32(UcHash(p))
    ensures ProgramFilters(h, p, uc, mc).Rd(PSIUMHFR1(0)) == Hi32(UcHash(p))
    ensures ProgramFilters(h, p, uc, mc).Rd(PSIMMHFR0(0)) == Lo32(McHash(p))
    ensures ProgramFilters(h, p, uc, mc).Rd(PSIMMHFR1(0)) == Hi32(McHash(p))
    ensures SameOutside(ProgramFilters(h, p, uc, mc), h, HashRegs)
  {
    var h1 := SetSiMacFilter(h, 0, UC, UcHash(p));
    var h2 := SetSiMacFilter(h1, 0, MC, McHash(p));
    SameOutsideTrans(h2, h1, h, {PSIMMHFR0(0), PSIMMHFR1(0)}, {PSIUMHFR0(0), PSIUMHFR1(0)});
    assert {PSIMMHFR0(0), PSIMMHFR1(0)} + {PSIUMHFR0(0), PSIUMHFR1(0)} == HashRegs;
    if p.exactMatch {
      SameOutsideRegs(ProgramFilters(h, p, uc, mc), h2, h2, {});
      SameOutsideTrans(ProgramFilters(h, p, uc, mc), h2, h, {}, HashRegs);
    }
  }

  lemma ProgramPromiscEffect(h: Hw, p: RxPlan, defs: PromiscDefs)
    ensures ProgramPromisc(h, p, defs).trace
            == h.trace + [RegWrite(PSIPMMR, PromiscFirst(h.Rd(PSIPMMR), p, defs)),
                          RegWrite(PSIPMMR, PromiscFinal(h.Rd(PSIPMMR), p, defs))]
    ensures ProgramPromisc(h, p, defs).Rd(PSIPMMR) == PromiscFinal(h.Rd(PSIPMMR), p, defs)
    ensures SameOutside(ProgramPromisc(h, p, defs), h, {PSIPMMR})
  {
  }

  /**
   * The operations of one call, in order, whichever mode is chosen: every
   * previously installed entry is deleted first, then the four hash-filter
   * words are written, then the new entries are added (exact-match mode
   * only), and the promiscuous register is written twice at the end.
   */
  lemma RxModeTrace(h: Hw, numMacFe: nat, p: RxPlan, uc: seq<MacAddr>, mc: seq<MacAddr>,
                    defs: PromiscDefs)
    ensures RxModeHw(h, numMacFe, p, uc, mc, defs).trace
            == h.trace + DeleteLog(numMacFe) + HashWrites(p) + AddedEntries(p, uc, mc)
               + [RegWrite(PSIPMMR, PromiscFirst(h.Rd(PSIPMMR), p, defs)),
                  RegWrite(PSIPMMR, PromiscFinal(h.Rd(PSIPMMR), p, defs))]
  {
    var h1 := Hw(h.regs, h.trace + DeleteLog(numMacFe));
    var h2 := FiltersStage(h, numMacFe, p, uc, mc);
    ProgramFiltersTrace(h1, p, uc, mc);
    ProgramFiltersRegs(h1, p, uc, mc);
    assert h2.Rd(PSIPMMR) == h.Rd(PSIPMMR);
    ProgramPromiscEffect(h2, p, defs);
  }

  /**
   * The registers after one call: the hash filters hold UcHash/McHash (zero in
   * exact-match mode and for a promiscuous class, the software table
   * otherwise).
   */
  lemma RxModeHashRegisters(h: Hw, numMacFe: nat, p: RxPlan, uc: seq<MacAddr>, mc: seq<MacAddr>,
                            defs: PromiscDefs)
    ensures RxModeHw(h, numMacFe, p, uc, mc, defs).Rd(PSIUMHFR0(0)) == Lo32(UcHash(p))
    ensures RxModeHw(h, numMacFe, p, uc, mc, defs).Rd(PSIUMHFR1(0)) == Hi32(UcHash(p))
    ensures RxModeHw(h, numMacFe, p, uc, mc, defs).Rd(PSIMMHFR0(0)) == Lo32(McHash(p))
    ensures RxModeHw(h, numMacFe, p, uc, mc, defs).Rd(PSIMMHFR1(0)) == Hi32(McHash(p))
  {
    ProgramFiltersRegs(Hw(h.regs, h.trace + DeleteLog(numMacFe)), p, uc, mc);
    ProgramPromiscEffect(FiltersStage(h, numMacFe, p, uc, mc), p, defs);
  }

  /**
   * PSIPMMR holds both promiscuous bits after one call, and no register other
   * than PSIPMMR and the four hash filter words changes.
   */
  lemma RxModeOtherRegisters(h: Hw, numMacFe: nat, p: RxPlan, uc: seq<MacAddr>, mc: seq<MacAddr>,
                             defs: PromiscDefs)
    ensures RxModeHw(h, numMacFe, p, uc, mc, defs).Rd(PSIPMMR) == PromiscFinal(h.Rd(PSIPMMR), p, defs)
    ensures SameOutside(RxModeHw(h, numMacFe, p, uc, mc, defs), h, {PSIPMMR} + HashRegs)
  {
    var h1 := Hw(h.regs, h.trace + DeleteLog(numMacFe));
    var h2 := FiltersStage(h, numMacFe, p, uc, mc);
    ProgramFiltersRegs(h1, p, uc, mc);
    SameOutsideRegs(h2, h1, h, HashRegs);
    assert PSIPMMR !in HashRegs;
    assert h2.Rd(PSIPMMR) == h.Rd(PSIPMMR);
    ProgramPromiscEffect(h2, p, defs);
    SameOutsideTrans(ProgramPromisc(h2, p, defs), h2, h, {PSIPMMR}, HashRegs);
  }

  /**
   * The final promiscuous register: each class's bit equals its promiscuity
   * and every other bit, the other SIs' included, is kept.
   */
  lemma PromiscFinalBits(v: Word, p: RxPlan, defs: PromiscDefs)
    requires defs.upBit(0) !! defs.mpBit(0)
    ensures PromiscFinal(v, p, defs) * defs.upBit(0) == (if p.promisc.uc then defs.upBit(0) else {})
    ensures PromiscFinal(v, p, defs) * defs.mpBit(0) == (if p.promisc.mc then defs.mpBit(0) else {})
    ensures PromiscFinal(v, p, defs) - (defs.upBit(0) + defs.mpBit(0))
            == v - (defs.upBit(0) + defs.mpBit(0))
  {
    ReplaceFlagKeepsDisjoint(PromiscFirst(v, p, defs), defs.mpBit(0), p.promisc.mc, defs.upBit(0));
  }

  /** Writing the promiscuous bits a second time with the same flags changes no bit. */
  lemma PromiscFinalIdempotent(v: Word, p: RxPlan, defs: PromiscDefs)
    ensures PromiscFinal(PromiscFinal(v, p, defs), p, defs) == PromiscFinal(v, p, defs)
  {
    var w := PromiscFinal(v, p, defs);
    var up, mp := defs.upBit(0), defs.mpBit(0);
    forall i ensures i in PromiscFinal(w, p, defs) <==> i in w {
      if i in mp {
        assert i in PromiscFinal(w, p, defs) <==> p.promisc.mc;
      } else if i in up {
        assert i in PromiscFinal(w, p, defs) <==> p.promisc.uc;
      }
    }
  }

  /** The registers one call leaves written: those written before, PSIPMMR and the hash words. */
  lemma RxModeKeys(h: Hw, numMacFe: nat, p: RxPlan, uc: seq<MacAddr>, mc: seq<MacAddr>,
                   defs: PromiscDefs)
    ensures RxModeHw(h, numMacFe, p, uc, mc, defs).regs.Keys == h.regs.Keys + {PSIPMMR} + HashRegs
  {
  }

  /**
   * A second call with the same device flags and address lists, after the
   * first, leaves every register exactly as the first call left it: the
   * hash words and PSIPMMR are rewritten with the values they already hold.
   */
  lemma RxModeRegsIdempotent(h: Hw, numMacFe: nat, p: RxPlan, uc: seq<MacAddr>, mc: seq<MacAddr>,
                             defs: PromiscDefs)
    ensures var h1 := RxModeHw(h, numMacFe, p, uc, mc, defs);
            RxModeHw(h1, NewEntryCount(p), p, uc, mc, defs).regs == h1.regs
  {
    var h1 := RxModeHw(h, numMacFe, p, uc, mc, defs);
    var h2 := RxModeHw(h1, NewEntryCount(p), p, uc, mc, defs);
    RxModeKeys(h, numMacFe, p, uc, mc, defs);
    RxModeKeys(h1, NewEntryCount(p), p, uc, mc, defs);
    assert h2.regs.Keys == h1.regs.Keys;
    RxModeRepeatReads(h, numMacFe, p, uc, mc, defs, h1, h2);
    SameRegs(h2, h1);
  }

  /** Every register reads the same after the second call as after the first. */
  lemma RxModeRepeatReads(h: Hw, numMacFe: nat, p: RxPlan, uc: seq<MacAddr>, mc: seq<MacAddr>,
                          defs: PromiscDefs, h1: Hw, h2: Hw)
    requires h1 == RxModeHw(h, numMacFe, p, uc, mc, defs)
    requires h2 == RxModeHw(h1, NewEntryCount(p), p, uc, mc, defs)
    ensures SameOutside(h2, h1, {})
  {
    RxModeHashRegisters(h, numMacFe, p, uc, mc, defs);
    RxModeHashRegisters(h1, NewEntryCount(p), p, uc, mc, defs);
    RxModeOtherRegisters(h, numMacFe, p, uc, mc, defs);
    RxModeOtherRegisters(h1, NewEntryCount(p), p, uc, mc, defs);
    PromiscFinalIdempotent(h.Rd(PSIPMMR), p, defs);
    var s0 := {PSIPMMR} + HashRegs;
    SameOutsideShrink(h2, h1, s0, PSIPMMR);
    var s1 := s0 - {PSIPMMR};
    SameOutsideShrink(h2, h1, s1, PSIUMHFR0(0));
    var s2 := s1 - {PSIUMHFR0(0)};
    SameOutsideShrink(h2, h1, s2, PSIUMHFR1(0));
    var s3 := s2 - {PSIUMHFR1(0)};
    SameOutsideShrink(h2, h1, s3, PSIMMHFR0(0));
    var s4 := s3 - {PSIMMHFR0(0)};
    SameOutsideShrink(h2, h1, s4, PSIMMHFR1(0));
    assert s4 - {PSIMMHFR1(0)} == {};
  }

  /**
   * The second call's operations: it deletes the `num_macs` entries the
   * first call counted, then issues the same hash-word writes and the same
   * entry additions as any call with this plan, and writes PSIPMMR ending
   * on the value it already holds.
   */
  lemma RxModeRepeatTrace(h: Hw, numMacFe: nat, p: RxPlan, uc: seq<MacAddr>, mc: seq<MacAddr>,
                          defs: PromiscDefs)
    ensures var h1 := RxModeHw(h, numMacFe, p, uc, mc, defs);
            RxModeHw(h1, NewEntryCount(p), p, uc, mc, defs).trace
            == h1.trace + DeleteLog(NewEntryCount(p)) + HashWrites(p) + AddedEntries(p, uc, mc)
               + [RegWrite(PSIPMMR, PromiscFirst(h1.Rd(PSIPMMR), p, defs)), RegWrite(PSIPMMR, h1.Rd(PSIPMMR))]
  {
    var h1 := RxModeHw(h, numMacFe, p, uc, mc, defs);
    RxModeTrace(h1, NewEntryCount(p), p, uc, mc, defs);
    RxModeOtherRegisters(h, numMacFe, p, uc, mc, defs);
    PromiscFinalIdempotent(h.Rd(PSIPMMR), p, defs);
  }

  /**
   * The next call deletes as many entries as this call added exactly when no
   * non-group address reaches the table: in exact-match mode with the
   * multicast class filtered, every multicast-list address must be a group
   * address.
   */
  lemma DeletesMatchAdds(flags: NetFlags, uc: seq<MacAddr>, mc: seq<MacAddr>,
                         macFilterNum: nat, hash: MacAddr -> HashIdx)
    ensures var p := PlanRxMode(flags, uc, mc, macFilterNum, hash);
            && NewEntryCount(p) <= |AddedEntries(p, uc, mc)|
            && (NewEntryCount(p) == |AddedEntries(p, uc, mc)|
                <==> !p.exactMatch || p.promisc.mc || forall i :: 0 <= i < |mc| ==> IsGroupAddr(mc[i]))
  {
    GroupAddrsSpec(mc);
  }

  /**
   * A non-group address on the multicast list in exact-match mode is added to
   * the table anyway, at an index the count `num_mac_fe` does not reach: the
   * first call adds an entry at index `num_macs`, and the next call deletes
   * only the entries 0 .. num_macs-1, so that entry outlives the next call.
   */
  lemma NonGroupMulticastOverfills(flags: NetFlags, uc: seq<MacAddr>, mc: seq<MacAddr>,
                                   macFilterNum: nat, hash: MacAddr -> HashIdx,
                                   h: Hw, numMacFe: nat, defs: PromiscDefs)
    requires !PromiscOf(flags).mc
    requires exists i :: 0 <= i < |mc| && !IsGroupAddr(mc[i])
    requires PlanRxMode(flags, uc, mc, macFilterNum, hash).exactMatch
    ensures var p := PlanRxMode(flags, uc, mc, macFilterNum, hash);
            && |ExactEntries(p, uc, mc)| > p.numMacs
            && NewEntryCount(p) == p.numMacs
            && MaftAdd(p.numMacs, ExactEntries(p, uc, mc)[p.numMacs], SiBitmap0)
               in RxModeHw(h, numMacFe, p, uc, mc, defs).trace
            && MaftDelete(p.numMacs) !in DeleteLog(NewEntryCount(p))
  {
    var p := PlanRxMode(flags, uc, mc, macFilterNum, hash);
    GroupAddrsSpec(mc);
    var e := ExactEntries(p, uc, mc);
    var adds := AddLog(0, e);
    RxModeTrace(h, numMacFe, p, uc, mc, defs);
    var pre := h.trace + DeleteLog(numMacFe) + HashWrites(p);
    var post := [RegWrite(PSIPMMR, PromiscFirst(h.Rd(PSIPMMR), p, defs)),
                 RegWrite(PSIPMMR, PromiscFinal(h.Rd(PSIPMMR), p, defs))];
    assert RxModeHw(h, numMacFe, p, uc, mc, defs).trace == pre + adds + post;
    assert (pre + adds + post)[|pre| + p.numMacs] == adds[p.numMacs];
  }
}
