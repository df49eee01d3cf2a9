/**
 * The station-interface (SI) setup of the ENETC v4 physical function and the
 * small register encoders of its hardware operations table: the split of the
 * BD rings and of the MSI-X vectors between the PF (SI 0) and the virtual SIs,
 * the per traffic class maximum SDU, the port-based VLAN word and the
 * little-endian packing of the primary MAC address.
 *
 * As in the link model, every field position and every value a register
 * header places into a field is a parameter (SetupDefs).
 */
module PortSetup {
  import opened Registers

  /** ENETC_SI_MAX_RING_NUM: the most BD rings of each kind the PF keeps. */
  const SI_MAX_RING_NUM: int := 8

  /** VLAN_ETH_HLEN: the Ethernet header with one VLAN tag. */
  const VLAN_ETH_HLEN: nat := 18

  /** The number of traffic classes with an MSDU register. */
  const NUM_TC: nat := 8

  type U32 = x: nat | x < 0x1_0000_0000
  type U16 = x: nat | x < 0x1_0000

  /** The port capabilities the setup reads (struct enetc_port_caps). */
  datatype Caps = Caps(numVsi: nat, numMsix: nat, numRxBdr: nat, numTxBdr: nat)

  /** Field masks and placed field values from the register header. */
  datatype SetupDefs = SetupDefs(
    sivc: Word,               // ENETC_PSICFGR0_SIVC(ENETC_VLAN_TYPE_C | ENETC_VLAN_TYPE_S)
    vte: Word,                // ENETC_PSICFGR0_VTE
    sivie: Word,              // ENETC_PSICFGR0_SIVIE
    setTxBdr: int -> Word,    // ENETC_PSICFGR0_SET_TXBDR
    setRxBdr: int -> Word,    // ENETC_PSICFGR0_SET_RXBDR
    vlanFmrVs: Word,          // PSIVLANFMR_VS
    vpMask: Word,             // ENETC_VLAN_PROMISC_MAP_ALL, as the field of PSIPVMR
    vpAll: Word,              // ENETC_PSIPVMR_SET_VP(ENETC_VLAN_PROMISC_MAP_ALL), placed
    maxFrmSize: nat,          // ENETC4_MAC_MAXFRM_SIZE
    setMaxFrm: nat -> Word,   // ENETC_SET_MAXFRM
    sduType: Word,            // PTCTMSDUR_SDU_TYPE
    sduTypeMpdu: Word,        // SDU_TYPE_MPDU, placed in PTCTMSDUR_SDU_TYPE
    vlanE: Word,              // PSIVLANR_E
    vlanVid: Word,            // PSIVLANR_VID
    vlanPcp: Word,            // PSIVLANR_PCP
    pcpOf: nat -> Word)       // a priority placed in PSIVLANR_PCP
  {
    /** The PSIVLANR fields do not overlap. */
    predicate VlanFieldsDisjoint() {
      && vlanE !! vlanVid && vlanE !! vlanPcp && vlanVid !! vlanPcp
    }
  }

  // ---------------------------------------------------------------------------
  // BD ring split (enetc4_port_si_configure, lines 98-126)
  // ---------------------------------------------------------------------------

  /**
   * The rings of one kind the PF keeps: SI_MAX_RING_NUM when at least that
   * many remain after one ring per VSI, otherwise all but one per VSI.
   */
  function PfRings(total: nat, numVsi: nat): int {
    if total < SI_MAX_RING_NUM + numVsi then total - numVsi else SI_MAX_RING_NUM
  }

  /**
   * The rings each VSI gets: the rest shared evenly. The dividend is never
   * negative, so C's truncating division and Dafny's agree.
   */
  function VsiRings(total: nat, numVsi: nat): int
    requires numVsi > 0
  {
    (total - PfRings(total, numVsi)) / numVsi
  }

  /**
   * With at least one ring per VSI: the PF keeps at most SI_MAX_RING_NUM and
   * no negative count, every VSI gets at least one ring, the rings handed
   * out never exceed the total, and fewer than numVsi rings stay unused.
   */
  lemma RingSplit(total: nat, numVsi: nat)
    requires numVsi > 0 && total >= numVsi
    ensures 0 <= PfRings(total, numVsi) <= SI_MAX_RING_NUM
    ensures VsiRings(total, numVsi) >= 1
    ensures total < SI_MAX_RING_NUM + numVsi ==> VsiRings(total, numVsi) == 1
    ensures 0 <= total - (PfRings(total, numVsi) + numVsi * VsiRings(total, numVsi)) < numVsi
  {
    var rest := total - PfRings(total, numVsi);
    assert rest >= numVsi;
    var q := rest / numVsi;
    assert rest == numVsi * q + rest % numVsi;
  }

  /** PSICFGR0 of the PF: RX rings from bit 16, TX rings from bit 0, both VLAN types. */
  function PfCfgValue(d: SetupDefs, rx: int, tx: int): Word {
    WordOf(rx * 0x1_0000) + WordOf(tx) + d.sivc
  }

  /** PSICFGR0 of each VSI: its ring counts, both VLAN types, VLAN tag extraction and insertion. */
  function VsiCfgValue(d: SetupDefs, rx: int, tx: int): Word {
    d.setTxBdr(tx) + d.setRxBdr(rx) + d.sivc + d.vte + d.sivie
  }

  // ---------------------------------------------------------------------------
  // MSI-X split (enetc4_set_si_msix_num, lines 79-96)
  // ---------------------------------------------------------------------------

  /** The vectors of the PF: an even share plus the remainder. */
  function PfMsix(numMsix: nat, numVsi: nat): nat {
    numMsix / (numVsi + 1) + numMsix % (numVsi + 1)
  }

  /** The vectors of each VSI: an even share. */
  function VsiMsix(numMsix: nat, numVsi: nat): nat {
    numMsix / (numVsi + 1)
  }

  /**
   * The 6-bit PSICFGR2 field: `(count - 1) & 0x3f` on a C int, where a count
   * of 0 wraps to 63 (two's complement); Dafny's `%` is never negative, as
   * the mask is.
   */
  function MsixField(count: nat): (f: nat)
    ensures f < 64
  {
    (count - 1) % 64
  }

  /**
   * Every vector goes to exactly one SI, and the PF gets at least as many as
   * each VSI.
   */
  lemma MsixSplit(numMsix: nat, numVsi: nat)
    ensures PfMsix(numMsix, numVsi) + numVsi * VsiMsix(numMsix, numVsi) == numMsix
    ensures PfMsix(numMsix, numVsi) >= VsiMsix(numMsix, numVsi)
  {
    var t := numVsi + 1;
    var q := numMsix / t;
    assert numMsix == t * q + numMsix % t;
    assert t * q == q + numVsi * q;
  }

  /** A count from 1 to 64 is encoded exactly (the field holds count - 1). */
  lemma MsixFieldExact(count: nat)
    requires 1 <= count <= 64
    ensures MsixField(count) + 1 == count
  {
  }

  /** With fewer vectors than SIs the VSIs' share is 0 and the field wraps to 63. */
  lemma MsixFieldUnderflow(numMsix: nat, numVsi: nat)
    requires numMsix < numVsi + 1
    ensures VsiMsix(numMsix, numVsi) == 0 && MsixField(VsiMsix(numMsix, numVsi)) == 63
  {
  }

  // ---------------------------------------------------------------------------
  // Register sequences of the SI loops
  // ---------------------------------------------------------------------------

  /** The same value for every one of n registers. */
  function Repeat(v: Word, n: nat): (s: seq<Word>)
    ensures |s| == n && forall i :: 0 <= i < n ==> s[i] == v
  {
    seq(n, _ => v)
  }

  /** PSICFGR0 of the VSIs 1 .. n. */
  function VsiCfgRegs(n: nat): (s: seq<RegId>)
    ensures |s| == n && forall i :: 0 <= i < n ==> s[i] == PSICFGR0(i + 1)
  {
    seq(n, i requires 0 <= i => PSICFGR0(i + 1))
  }

  /** PSICFGR2 of the VSIs 1 .. n. */
  function VsiMsixRegs(n: nat): (s: seq<RegId>)
    ensures |s| == n && forall i :: 0 <= i < n ==> s[i] == PSICFGR2(i + 1)
  {
    seq(n, i requires 0 <= i => PSICFGR2(i + 1))
  }

  /** PTCTMSDUR of the traffic classes 0 .. n-1. */
  function TcRegs(n: nat): (s: seq<RegId>)
    ensures |s| == n && forall i :: 0 <= i < n ==> s[i] == PTCTMSDUR(i)
  {
    seq(n, i requires 0 <= i => PTCTMSDUR(i))
  }

  // ---------------------------------------------------------------------------
  // SI configuration
  // ---------------------------------------------------------------------------

  /** enetc4_set_si_msix_num: PSICFGR2 of SI 0, then of each VSI. */
  function SetSiMsixNumHw(h: Hw, caps: Caps): Hw {
    var h1 := h.Wr(PSICFGR2(0), WordOf(MsixField(PfMsix(caps.numMsix, caps.numVsi))));
    WriteSeq(h1, VsiMsixRegs(caps.numVsi),
             Repeat(WordOf(MsixField(VsiMsix(caps.numMsix, caps.numVsi))), caps.numVsi), caps.numVsi)
  }

  /**
   * enetc4_pf_set_si_vlan_promisc with ENETC_VLAN_PROMISC_MAP_ALL: read
   * PSIPVMR, set the VLAN promiscuous bits of every SI, write it back.
   */
  function SetSiVlanPromiscHw(h: Hw, d: SetupDefs): Hw {
    h.Wr(PSIPVMR, ReplaceBits(h.Rd(PSIPVMR), d.vpMask, d.vpAll))
  }

  /** The PSICFGR0 values of the PF and of each VSI for the port's capabilities. */
  function PfCfg(d: SetupDefs, caps: Caps): Word {
    PfCfgValue(d, PfRings(caps.numRxBdr, caps.numVsi), PfRings(caps.numTxBdr, caps.numVsi))
  }

  function VsiCfg(d: SetupDefs, caps: Caps): Word
    requires caps.numVsi > 0
  {
    VsiCfgValue(d, VsiRings(caps.numRxBdr, caps.numVsi), VsiRings(caps.numTxBdr, caps.numVsi))
  }

  /**
   * The SI stage of enetc4_port_si_configure, up to the VLAN filter mode:
   * PSICFGR0 of SI 0, then of every VSI. The division by the VSI count
   * requires at least one VSI.
   */
  function SiRingsHw(h: Hw, d: SetupDefs, caps: Caps): Hw
    requires caps.numVsi > 0
  {
    var h1 := h.Wr(PSICFGR0(0), PfCfg(d, caps));
    WriteSeq(h1, VsiCfgRegs(caps.numVsi), Repeat(VsiCfg(d, caps), caps.numVsi), caps.numVsi)
  }

  /**
   * The rest of enetc4_port_si_configure: the outer VLAN tag for filtering,
   * VLAN promiscuous mode for every SI, MAC promiscuous mode off for every
   * SI, then the MSI-X split.
   */
  function SiModesHw(h: Hw, d: SetupDefs, caps: Caps): Hw {
    var h2 := SetSiVlanPromiscHw(h.Wr(PSIVLANFMR, d.vlanFmrVs), d);
    SetSiMsixNumHw(h2.Wr(PSIPMMR, {}), caps)
  }

  function PortSiConfigureHw(h: Hw, d: SetupDefs, caps: Caps): Hw
    requires caps.numVsi > 0
  {
    SiModesHw(SiRingsHw(h, d, caps), d, caps)
  }

  /** The PSICFGR0 and PSICFGR2 registers of SI 0 and of each VSI are distinct. */
  lemma SiRegsDistinct(n: nat)
    ensures forall i, j :: 0 <= i < j < n ==> VsiCfgRegs(n)[i] != VsiCfgRegs(n)[j]
    ensures forall i, j :: 0 <= i < j < n ==> VsiMsixRegs(n)[i] != VsiMsixRegs(n)[j]
    ensures PSICFGR0(0) !in FirstRegs(VsiCfgRegs(n), n)
    ensures PSICFGR2(0) !in FirstRegs(VsiMsixRegs(n), n)
  {
  }

  /**
   * The MSI-X stage: PSICFGR2 of SI 0 holds the PF's share and that of every
   * VSI the VSIs' share, each encoded as count - 1 in 6 bits; no other
   * register changes.
   */
  lemma SetSiMsixNumEffect(h: Hw, caps: Caps)
    ensures SetSiMsixNumHw(h, caps).Rd(PSICFGR2(0)) == WordOf(MsixField(PfMsix(caps.numMsix, caps.numVsi)))
    ensures forall si :: 1 <= si <= caps.numVsi ==>
              SetSiMsixNumHw(h, caps).Rd(PSICFGR2(si)) == WordOf(MsixField(VsiMsix(caps.numMsix, caps.numVsi)))
    ensures SameOutside(SetSiMsixNumHw(h, caps), h, {PSICFGR2(0)} + FirstRegs(VsiMsixRegs(caps.numVsi), caps.numVsi))
  {
    var n := caps.numVsi;
    var regs := VsiMsixRegs(n);
    var vals := Repeat(WordOf(MsixField(VsiMsix(caps.numMsix, n))), n);
    var h1 := h.Wr(PSICFGR2(0), WordOf(MsixField(PfMsix(caps.numMsix, n))));
    SiRegsDistinct(n);
    WriteSeqEffect(h1, regs, vals, n);
    WrFrame(h, PSICFGR2(0), WordOf(MsixField(PfMsix(caps.numMsix, n))));
    SameOutsideTrans(SetSiMsixNumHw(h, caps), h1, h, FirstRegs(regs, n), {PSICFGR2(0)});
    forall si | 1 <= si <= n
      ensures SetSiMsixNumHw(h, caps).Rd(PSICFGR2(si)) == WordOf(MsixField(VsiMsix(caps.numMsix, n)))
    {
      assert regs[si - 1] == PSICFGR2(si);
    }
  }

  /** The ring stage: PSICFGR0 of SI 0 and of every VSI hold their ring split; nothing else changes. */
  lemma SiRingsEffect(h: Hw, d: SetupDefs, caps: Caps)
    requires caps.numVsi > 0
    ensures SiRingsHw(h, d, caps).Rd(PSICFGR0(0)) == PfCfg(d, caps)
    ensures forall si :: 1 <= si <= caps.numVsi ==> SiRingsHw(h, d, caps).Rd(PSICFGR0(si)) == VsiCfg(d, caps)
    ensures SameOutside(SiRingsHw(h, d, caps), h, {PSICFGR0(0)} + FirstRegs(VsiCfgRegs(caps.numVsi), caps.numVsi))
  {
    var n := caps.numVsi;
    var regs := VsiCfgRegs(n);
    var h1 := h.Wr(PSICFGR0(0), PfCfg(d, caps));
    SiRegsDistinct(n);
    WriteSeqEffect(h1, regs, Repeat(VsiCfg(d, caps), n), n);
    WrFrame(h, PSICFGR0(0), PfCfg(d, caps));
    SameOutsideTrans(SiRingsHw(h, d, caps), h1, h, FirstRegs(regs, n), {PSICFGR0(0)});
    forall si | 1 <= si <= n ensures SiRingsHw(h, d, caps).Rd(PSICFGR0(si)) == VsiCfg(d, caps) {
      assert regs[si - 1] == PSICFGR0(si);
    }
  }

  /**
   * The mode stage: outer-tag VLAN filtering, VLAN promiscuous mode for
   * every SI (other PSIPVMR bits kept), both MAC promiscuous modes off for
   * every SI (PSIPMMR all zero).
   */
  lemma SiModesEffect(h: Hw, d: SetupDefs, caps: Caps)
    ensures SiModesHw(h, d, caps).Rd(PSIVLANFMR) == d.vlanFmrVs
    ensures SiModesHw(h, d, caps).Rd(PSIPVMR) * d.vpMask == d.vpAll * d.vpMask
    ensures SiModesHw(h, d, caps).Rd(PSIPVMR) - d.vpMask == h.Rd(PSIPVMR) - d.vpMask
    ensures SiModesHw(h, d, caps).Rd(PSIPMMR) == {}
  {
    var h2 := SetSiVlanPromiscHw(h.Wr(PSIVLANFMR, d.vlanFmrVs), d);
    var h3 := h2.Wr(PSIPMMR, {});
    SetSiMsixNumEffect(h3, caps);
    var s := {PSICFGR2(0)} + FirstRegs(VsiMsixRegs(caps.numVsi), caps.numVsi);
    assert PSIVLANFMR !in s && PSIPVMR !in s && PSIPMMR !in s;
    assert h3.Rd(PSIPVMR) == h2.Rd(PSIPVMR);
  }

  // ---------------------------------------------------------------------------
  // Frame size and per-TC maximum SDU (lines 42-75)
  // ---------------------------------------------------------------------------

  /**
   * PTCTMSDUR of one traffic class: the configured maximum SDU plus the
   * tagged Ethernet header (a u32 sum), or the MAC's maximum frame size when
   * none is configured; the SDU type is MPDU.
   */
  function MsduValue(d: SetupDefs, maxSdu: U32): Word {
    ReplaceBits(WordOf(if maxSdu != 0 then maxSdu + VLAN_ETH_HLEN else d.maxFrmSize), d.sduType, d.sduTypeMpdu)
  }

  /** The PTCTMSDUR values enetc4_pf_set_tc_msdu writes; max_sdu has one entry per class. */
  function MsduValues(d: SetupDefs, maxSdu: seq<U32>): (s: seq<Word>)
    requires |maxSdu| >= NUM_TC
    ensures |s| == NUM_TC && forall tc :: 0 <= tc < NUM_TC ==> s[tc] == MsduValue(d, maxSdu[tc])
  {
    seq(NUM_TC, tc requires 0 <= tc < NUM_TC => MsduValue(d, maxSdu[tc]))
  }

  function SetTcMsduHw(h: Hw, d: SetupDefs, maxSdu: seq<U32>): Hw
    requires |maxSdu| >= NUM_TC
  {
    WriteSeq(h, TcRegs(NUM_TC), MsduValues(d, maxSdu), NUM_TC)
  }

  /** enetc4_pf_reset_tc_msdu: the maximum frame size, MPDU type, for every class. */
  function ResetTcMsduHw(h: Hw, d: SetupDefs): Hw {
    var v := ReplaceBits(WordOf(d.maxFrmSize), d.sduType, d.sduTypeMpdu);
    WriteSeq(h, TcRegs(NUM_TC), Repeat(v, NUM_TC), NUM_TC)
  }

  /** enetc4_set_trx_frame_size: the MAC's maximum frame length, then the per-TC reset. */
  function SetTrxFrameSizeHw(h: Hw, d: SetupDefs): Hw {
    ResetTcMsduHw(h.Wr(PM_MAXFRM, d.setMaxFrm(d.maxFrmSize)), d)
  }

  /** Resetting is the same as setting with no maximum SDU configured for any class. */
  lemma ResetIsUnconfiguredSet(h: Hw, d: SetupDefs)
    ensures ResetTcMsduHw(h, d) == SetTcMsduHw(h, d, [0, 0, 0, 0, 0, 0, 0, 0])
  {
    var v := ReplaceBits(WordOf(d.maxFrmSize), d.sduType, d.sduTypeMpdu);
    assert Repeat(v, NUM_TC) == MsduValues(d, [0, 0, 0, 0, 0, 0, 0, 0]);
  }

  /**
   * One class's MSDU word: the SDU type field is MPDU, and every other bit is
   * that of the size.
   */
  lemma MsduValueFields(d: SetupDefs, maxSdu: U32)
    ensures MsduValue(d, maxSdu) * d.sduType == d.sduTypeMpdu * d.sduType
    ensures MsduValue(d, maxSdu) - d.sduType
            == WordOf(if maxSdu != 0 then maxSdu + VLAN_ETH_HLEN else d.maxFrmSize) - d.sduType
  {
  }

  /** After enetc4_pf_set_tc_msdu each class's register holds its value; no other register changes. */
  lemma SetTcMsduEffect(h: Hw, d: SetupDefs, maxSdu: seq<U32>)
    requires |maxSdu| >= NUM_TC
    ensures forall tc :: 0 <= tc < NUM_TC ==> SetTcMsduHw(h, d, maxSdu).Rd(PTCTMSDUR(tc)) == MsduValue(d, maxSdu[tc])
    ensures SameOutside(SetTcMsduHw(h, d, maxSdu), h, FirstRegs(TcRegs(NUM_TC), NUM_TC))
  {
    var regs := TcRegs(NUM_TC);
    var vals := MsduValues(d, maxSdu);
    WriteSeqEffect(h, regs, vals, NUM_TC);
    forall tc | 0 <= tc < NUM_TC ensures SetTcMsduHw(h, d, maxSdu).Rd(PTCTMSDUR(tc)) == MsduValue(d, maxSdu[tc]) {
      assert regs[tc] == PTCTMSDUR(tc);
      assert vals[tc] == MsduValue(d, maxSdu[tc]);
    }
  }

  // ---------------------------------------------------------------------------
  // Port-based VLAN (enetc4_pf_set_si_based_vlan, lines 659-670)
  // ---------------------------------------------------------------------------

  /** PSIVLANR: disabled (all zero) for VLAN 0, else enabled with the VID and the priority. */
  function BasedVlanValue(d: SetupDefs, vlan: U16, qos: Octet): Word {
    if vlan != 0 then ReplaceBits(d.vlanE + (WordOf(vlan) * d.vlanVid), d.vlanPcp, d.pcpOf(qos)) else {}
  }

  function SetSiBasedVlanHw(h: Hw, d: SetupDefs, si: nat, vlan: U16, qos: Octet): Hw {
    h.Wr(PSIVLANR(si), BasedVlanValue(d, vlan, qos))
  }

  /**
   * For a nonzero VLAN the word holds the enable bit, the VLAN's own bits in
   * the VID field, the placed priority in the PCP field and nothing else;
   * for VLAN 0 it is zero. So the word is nonzero exactly when a VLAN is set.
   */
  lemma BasedVlanFields(d: SetupDefs, vlan: U16, qos: Octet)
    requires d.VlanFieldsDisjoint() && d.vlanE != {}
    ensures var r := BasedVlanValue(d, vlan, qos);
            && (vlan == 0 <==> r == {})
            && (vlan != 0 ==>
                  && r * d.vlanE == d.vlanE
                  && r * d.vlanVid == WordOf(vlan) * d.vlanVid
                  && r * d.vlanPcp == d.pcpOf(qos) * d.vlanPcp
                  && r - (d.vlanE + d.vlanVid + d.vlanPcp) == {})
  {
    if vlan != 0 {
      var base := d.vlanE + (WordOf(vlan) * d.vlanVid);
      var r := BasedVlanValue(d, vlan, qos);
      ReplaceBitsKeepsDisjoint(base, d.vlanPcp, d.pcpOf(qos), d.vlanE);
      ReplaceBitsKeepsDisjoint(base, d.vlanPcp, d.pcpOf(qos), d.vlanVid);
      assert base * d.vlanE == d.vlanE;
      assert base * d.vlanVid == WordOf(vlan) * d.vlanVid;
      var e :| e in d.vlanE;
      assert e in r * d.vlanE;
    }
  }

  // ---------------------------------------------------------------------------
  // Primary MAC address (lines 633-657)
  // ---------------------------------------------------------------------------

  /** get_unaligned_le32(addr): the first four octets, least significant first. */
  function MacUpper(a: MacAddr): (u: U32)
    ensures u % 0x100 == a[0] && (u / 0x100) % 0x100 == a[1]
    ensures (u / 0x1_0000) % 0x100 == a[2] && u / 0x100_0000 == a[3]
  {
    UpperBytes(a[0], a[1], a[2], a[3]);
    a[0] as nat + 0x100 * a[1] as nat + 0x1_0000 * a[2] as nat + 0x100_0000 * a[3] as nat
  }

  /** get_unaligned_le16(addr + 4): the last two octets, least significant first. */
  function MacLower(a: MacAddr): (l: U16)
    ensures l % 0x100 == a[4] && l / 0x100 == a[5]
  {
    LowerBytes(a[4], a[5]);
    a[4] as nat + 0x100 * a[5] as nat
  }

  /**
   * put_unaligned_le32 and put_unaligned_le16: the six octets of an upper and
   * a lower word; packing them again gives back both words.
   */
  function MacOf(upper: U32, lower: U16): (a: MacAddr)
    ensures MacUpper(a) == upper && MacLower(a) == lower
  {
    UpperOfBytes(upper);
    LowerOfBytes(lower);
    [upper % 0x100, (upper / 0x100) % 0x100, (upper / 0x1_0000) % 0x100, upper / 0x100_0000,
     lower % 0x100, lower / 0x100]
  }

  /** A 32-bit word is the little-endian sum of its four octets. */
  lemma UpperOfBytes(u: nat)
    requires u < 0x1_0000_0000
    ensures u == u % 0x100 + 0x100 * ((u / 0x100) % 0x100) + 0x1_0000 * ((u / 0x1_0000) % 0x100)
                 + 0x100_0000 * (u / 0x100_0000)
  {
    var q1, r0 := u / 0x100, u % 0x100;
    var q2, r1 := q1 / 0x100, q1 % 0x100;
    var q3, r2 := q2 / 0x100, q2 % 0x100;
    assert u == 0x100 * q1 + r0;
    assert q1 == 0x100 * q2 + r1;
    assert q2 == 0x100 * q3 + r2;
    DivUnique(u, 0x1_0000, q2, r0 + 0x100 * r1);
    DivUnique(u, 0x100_0000, q3, r0 + 0x100 * r1 + 0x1_0000 * r2);
  }

  /** A 16-bit half-word is the little-endian sum of its two octets. */
  lemma LowerOfBytes(l: nat)
    requires l < 0x1_0000
    ensures l == l % 0x100 + 0x100 * (l / 0x100)
  {
  }

  /** Unpacking undoes packing. */
  lemma MacPackRoundTrip(a: MacAddr)
    ensures MacOf(MacUpper(a), MacLower(a)) == a
  {
    UpperBytes(a[0], a[1], a[2], a[3]);
    LowerBytes(a[4], a[5]);
    assert MacOf(MacUpper(a), MacLower(a)) == [a[0], a[1], a[2], a[3], a[4], a[5]];
  }

  /** The four octets of a little-endian 32-bit word are recovered by put_unaligned_le32. */
  lemma UpperBytes(a0: nat, a1: nat, a2: nat, a3: nat)
    requires a0 < 0x100 && a1 < 0x100 && a2 < 0x100 && a3 < 0x100
    ensures var u := a0 + 0x100 * a1 + 0x1_0000 * a2 + 0x100_0000 * a3;
            && u % 0x100 == a0 && (u / 0x100) % 0x100 == a1
            && (u / 0x1_0000) % 0x100 == a2 && u / 0x100_0000 == a3
  {
    var u := a0 + 0x100 * a1 + 0x1_0000 * a2 + 0x100_0000 * a3;
    var r1 := a1 + 0x100 * a2 + 0x1_0000 * a3;
    var r2 := a2 + 0x100 * a3;
    DivModUnique(u, 0x100, r1, a0);
    DivUnique(u, 0x100, r1, a0);
    DivModUnique(r1, 0x100, r2, a1);
    DivUnique(u, 0x1_0000, r2, a0 + 0x100 * a1);
    DivModUnique(r2, 0x100, a3, a2);
    DivUnique(u, 0x100_0000, a3, a0 + 0x100 * a1 + 0x1_0000 * a2);
  }

  lemma LowerBytes(a4: nat, a5: nat)
    requires a4 < 0x100 && a5 < 0x100
    ensures var l := a4 + 0x100 * a5; l % 0x100 == a4 && l / 0x100 == a5
  {
    DivModUnique(a4 + 0x100 * a5, 0x100, a5, a4);
    DivUnique(a4 + 0x100 * a5, 0x100, a5, a4);
  }

  lemma DivUnique(n: int, d: int, q: int, r: int)
    requires d > 0 && 0 <= r < d && n == q * d + r
    ensures n / d == q
  {
    DivModUnique(n, d, q, r);
  }

  /**
   * enetc4_pf_set_si_primary_mac: a VSI's address goes to its PSIPMAR0/1, the
   * PF's (SI 0) to the port's PMAR0/1; the upper word first.
   */
  function SetSiPrimaryMacHw(h: Hw, si: nat, a: MacAddr): Hw {
    if si != 0 then h.Wr(PSIPMAR0(si), WordOf(MacUpper(a))).Wr(PSIPMAR1(si), WordOf(MacLower(a)))
    else h.Wr(PMAR0, WordOf(MacUpper(a))).Wr(PMAR1, WordOf(MacLower(a)))
  }

  /**
   * enetc4_pf_get_si_primary_mac: a 32-bit read of PSIPMAR0(si) and a 16-bit
   * read of PSIPMAR1(si), for every SI including 0.
   */
  function GetSiPrimaryMac(h: Hw, si: nat): MacAddr {
    var u := WordNat(h.Rd(PSIPMAR0(si)), 0, 32);
    var l := WordNat(h.Rd(PSIPMAR1(si)), 0, 16);
    Pow2Of32();
    MacOf(u, l)
  }

  /** For a VSI the address read back is the address set. */
  lemma PrimaryMacRoundTrip(h: Hw, si: nat, a: MacAddr)
    requires si != 0
    ensures GetSiPrimaryMac(SetSiPrimaryMacHw(h, si, a), si) == a
  {
    var r := SetSiPrimaryMacHw(h, si, a);
    Pow2Of32();
    WordNatOf(MacUpper(a), 32);
    WordNatOf(MacLower(a), 16);
    assert r.Rd(PSIPMAR0(si)) == WordOf(MacUpper(a));
    MacPackRoundTrip(a);
  }

  /**
   * For SI 0 the setter writes PMAR0/1, which the getter does not read: the
   * address read back afterwards is whatever PSIPMAR0/1(0) held before.
   */
  lemma PrimaryMacSi0(h: Hw, a: MacAddr)
    ensures GetSiPrimaryMac(SetSiPrimaryMacHw(h, 0, a), 0) == GetSiPrimaryMac(h, 0)
    ensures SetSiPrimaryMacHw(h, 0, a).Rd(PMAR0) == WordOf(MacUpper(a))
    ensures SetSiPrimaryMacHw(h, 0, a).Rd(PMAR1) == WordOf(MacLower(a))
  {
    var r := SetSiPrimaryMacHw(h, 0, a);
    assert r.Rd(PSIPMAR0(0)) == h.Rd(PSIPMAR0(0));
    assert r.Rd(PSIPMAR1(0)) == h.Rd(PSIPMAR1(0));
  }
}
