/**
 * The ENETC v4 physical function as the driver sees it: the port's register
 * file and the trace of everything sent to the hardware, with the software
 * state the driver keeps beside them (the cached link speed, the count of
 * installed exact-match entries, the software hash filters). Every driver
 * function this model covers is a method of Port; each is specified by the
 * Hw-level function of AddressFilter, LinkConfig or PortSetup that models it,
 * and the properties are proved about those functions.
 */
module Enetc4Pf {
  import opened Registers
  import opened AddressFilter
  import opened LinkConfig
  import opened PortSetup

  /** What probe fixes: capabilities, register layout and the address hash. */
  datatype PortConfig = PortConfig(
    caps: Caps,
    macFilterNum: nat,            // caps.mac_filter_num: exact-match table entries
    halfDuplex: bool,             // caps.half_duplex
    hwQbu: bool,                  // si->hw_features & ENETC_SI_F_QBU
    link: LinkDefs,
    promisc: PromiscDefs,
    setup: SetupDefs,
    hash: MacAddr -> HashIdx)     // enetc_mac_addr_hash_idx

  /** The driver's software state beside the registers. */
  datatype SoftState = SoftState(speed: int, numMacFe: nat, ucFilter: MacFilter, mcFilter: MacFilter,
                                 numRxRings: nat, preemptionActive: bool)

  class Port {
    var regs: map<RegId, Word>
    var trace: seq<Event>
    var speed: int                 // priv->speed
    var numMacFe: nat              // si->num_mac_fe
    var ucFilter: MacFilter        // si->mac_filter[UC]
    var mcFilter: MacFilter        // si->mac_filter[MC]
    var numRxRings: nat            // priv->num_rx_rings
    var preemptionActive: bool     // priv->active_offloads & ENETC_F_QBU
    const cfg: PortConfig

    function Bus(): Hw
      reads this
    {
      Hw(regs, trace)
    }

    function Soft(): SoftState
      reads this
    {
      SoftState(speed, numMacFe, ucFilter, mcFilter, numRxRings, preemptionActive)
    }

    /** The context the link functions read. */
    function Ctx(): PortCtx
      reads this
    {
      PortCtx(cfg.link, cfg.halfDuplex, cfg.hwQbu, preemptionActive, numRxRings)
    }

    constructor (cfg: PortConfig, regs: map<RegId, Word>, speed: int, numRxRings: nat, preemptionActive: bool)
      ensures this.cfg == cfg && Bus() == Hw(regs, [])
      ensures Soft() == SoftState(speed, 0, ResetFilter, ResetFilter, numRxRings, preemptionActive)
    {
      this.cfg := cfg;
      this.regs := regs;
      this.trace := [];
      this.speed := speed;
      this.numMacFe := 0;
      this.ucFilter := ResetFilter;
      this.mcFilter := ResetFilter;
      this.numRxRings := numRxRings;
      this.preemptionActive := preemptionActive;
    }

    // -------------------------------------------------------------------------
    // Register and control-ring access
    // -------------------------------------------------------------------------

    /** enetc_port_rd and its MAC and ring variants. */
    method Read(r: RegId) returns (v: Word)
      ensures v == Bus().Rd(r)
    {
      v := if r in regs then regs[r] else {};
    }

    /** enetc_port_wr and its MAC and ring variants. */
    method Write(r: RegId, v: Word)
      modifies this
      ensures Bus() == old(Bus()).Wr(r, v) && Soft() == old(Soft())
    {
      regs := regs[r := v];
      trace := trace + [RegWrite(r, v)];
    }

    /** A command on the control ring or a notification to the preemption layer. */
    method Issue(e: Event)
      modifies this
      ensures Bus() == old(Bus()).Log(e) && Soft() == old(Soft())
    {
      trace := trace + [e];
    }

    // -------------------------------------------------------------------------
    // Address filtering (lines 195-299, 689-718)
    // -------------------------------------------------------------------------

    /** enetc4_pf_set_si_mac_filter */
    method SetSiMacFilter(si: nat, cls: AddrClass, hash: HashTable)
      modifies this
      ensures Bus() == AddressFilter.SetSiMacFilter(old(Bus()), si, cls, hash) && Soft() == old(Soft())
    {
      Write(HashLoReg(si, cls), Lo32(hash));
      Write(HashHiReg(si, cls), Hi32(hash));
    }

    /** enetc4_pf_set_si_mac_promisc */
    method SetSiMacPromisc(si: nat, cls: AddrClass, en: bool)
      modifies this
      ensures Bus() == AddressFilter.SetSiMacPromisc(old(Bus()), cfg.promisc, si, cls, en) && Soft() == old(Soft())
    {
      var val := Read(PSIPMMR);
      if cls == UC {
        if en {
          val := val + cfg.promisc.upBit(si);
        } else {
          val := val - cfg.promisc.upBit(si);
        }
      } else {
        if en {
          val := val + cfg.promisc.mpBit(si);
        } else {
          val := val - cfg.promisc.mpBit(si);
        }
      }
      Write(PSIPMMR, val);
    }

    /** The unicast loop of lines 229-231: a reset filter with every address added in order. */
    method BuildUcFilter(addrs: seq<MacAddr>) returns (f: MacFilter)
      ensures f == FilterOf(addrs, cfg.hash)
    {
      f := ResetFilter;
      for k := 0 to |addrs|
        invariant f == FilterOf(addrs[..k], cfg.hash)
      {
        FilterOfStep(addrs[..k], addrs[k], cfg.hash);
        assert addrs[..k + 1] == addrs[..k] + [addrs[k]];
        f := AddHtFilter(f, addrs[k], cfg.hash);
      }
      assert addrs[..|addrs|] == addrs;
    }

    /** The multicast loop of lines 237-243: as above, skipping every non-group address. */
    method BuildMcFilter(addrs: seq<MacAddr>) returns (f: MacFilter)
      ensures f == FilterOf(GroupAddrs(addrs), cfg.hash)
    {
      f := ResetFilter;
      for k := 0 to |addrs|
        invariant f == FilterOf(GroupAddrs(addrs[..k]), cfg.hash)
      {
        GroupAddrsStep(addrs, k);
        if IsGroupAddr(addrs[k]) {
          FilterOfStep(GroupAddrs(addrs[..k]), addrs[k], cfg.hash);
          f := AddHtFilter(f, addrs[k], cfg.hash);
        } else {
          assert GroupAddrs(addrs[..k + 1]) == GroupAddrs(addrs[..k]);
        }
      }
      assert addrs[..|addrs|] == addrs;
    }

    /** The delete loop of lines 254-255: entries 0 .. n-1. */
    method DeleteEntries(n: nat)
      modifies this
      ensures Bus() == Hw(old(regs), old(trace) + DeleteLog(n)) && Soft() == old(Soft())
    {
      for i := 0 to n
        invariant Bus() == Hw(old(regs), old(trace) + DeleteLog(i)) && Soft() == old(Soft())
      {
        Issue(MaftDelete(i));
        DeleteLogStep(i);
      }
    }

    /** An add loop of lines 266-276: the addresses at indices start, start + 1, ... */
    method AddEntries(start: nat, addrs: seq<MacAddr>) returns (next: nat)
      modifies this
      ensures next == start + |addrs|
      ensures Bus() == Hw(old(regs), old(trace) + AddLog(start, addrs)) && Soft() == old(Soft())
    {
      next := start;
      for k := 0 to |addrs|
        invariant next == start + k
        invariant Bus() == Hw(old(regs), old(trace) + AddLog(start, addrs[..k])) && Soft() == old(Soft())
      {
        Issue(MaftAdd(next, addrs[k], SiBitmap0));
        AddLogStep(start, addrs, k);
        next := next + 1;
      }
      assert addrs[..|addrs|] == addrs;
    }

    /** Lines 215-249 of enetc4_pf_set_rx_mode: the decision; it changes nothing. */
    method PlanFilters(flags: NetFlags, uc: seq<MacAddr>, mc: seq<MacAddr>) returns (p: RxPlan)
      ensures p == PlanRxMode(flags, uc, mc, cfg.macFilterNum, cfg.hash)
    {
      var ucPromisc, mcPromisc := false, false;
      if flags.promisc {
        ucPromisc, mcPromisc := true, true;
      } else if flags.allMulti {
        mcPromisc := true;
      }
      var ucf, mcf := ResetFilter, ResetFilter;
      var numMacs := 0;
      if !ucPromisc {
        ucf := BuildUcFilter(uc);
        FilterOfCount(uc, cfg.hash);
        numMacs := numMacs + ucf.addrCount;
      }
      if !mcPromisc {
        mcf := BuildMcFilter(mc);
        FilterOfCount(GroupAddrs(mc), cfg.hash);
        numMacs := numMacs + mcf.addrCount;
      }
      var exactMatch := numMacs != 0 && numMacs <= cfg.macFilterNum;
      p := RxPlan(Promisc(ucPromisc, mcPromisc), ucf, mcf, numMacs, exactMatch);
    }

    /** Lines 257-276: clear both hash filters, then add the entries from index 0. */
    method ProgramExact(p: RxPlan, uc: seq<MacAddr>, mc: seq<MacAddr>)
      requires p.exactMatch
      modifies this
      ensures Bus() == ProgramFilters(old(Bus()), p, uc, mc) && Soft() == old(Soft())
    {
      SetSiMacFilter(0, UC, {});
      SetSiMacFilter(0, MC, {});
      var i := 0;
      ghost var ucAdded: seq<MacAddr> := [];
      if !p.promisc.uc {
        i := AddEntries(i, uc);
        ucAdded := uc;
      }
      if !p.promisc.mc {
        i := AddEntries(i, mc);
      }
      AddLogConcat(0, ucAdded, if p.promisc.mc then [] else mc);
    }

    /** Lines 284-295: each hash filter gets the class's table, or 0 for a promiscuous class. */
    method ProgramHash(p: RxPlan)
      requires !p.exactMatch
      modifies this
      ensures Bus() == ProgramFilters(old(Bus()), p, [], []) && Soft() == old(Soft())
    {
      if !p.promisc.uc {
        SetSiMacFilter(0, UC, p.ucFilter.hashTable);
      } else {
        SetSiMacFilter(0, UC, {});
      }
      if !p.promisc.mc {
        SetSiMacFilter(0, MC, p.mcFilter.hashTable);
      } else {
        SetSiMacFilter(0, MC, {});
      }
    }

    /**
     * enetc4_pf_set_rx_mode: the decision of PlanRxMode, then the hardware
     * operations of RxModeHw; the software filters and the entry count are
     * left for the next call.
     */
    method SetRxMode(flags: NetFlags, uc: seq<MacAddr>, mc: seq<MacAddr>)
      modifies this
      ensures var p := PlanRxMode(flags, uc, mc, cfg.macFilterNum, cfg.hash);
              && Bus() == RxModeHw(old(Bus()), old(numMacFe), p, uc, mc, cfg.promisc)
              && Soft() == old(Soft()).(numMacFe := NewEntryCount(p), ucFilter := p.ucFilter,
                                        mcFilter := p.mcFilter)
    {
      ghost var h0 := Bus();
      var p := PlanFilters(flags, uc, mc);
      ucFilter, mcFilter := p.ucFilter, p.mcFilter;
      DeleteEntries(numMacFe);
      if p.exactMatch {
        ProgramExact(p, uc, mc);
        numMacFe := p.numMacs;
      } else {
        numMacFe := 0;
        ProgramHash(p);
      }
      assert Bus() == FiltersStage(h0, old(numMacFe), p, uc, mc);
      SetSiMacPromisc(0, UC, p.promisc.uc);
      SetSiMacPromisc(0, MC, p.promisc.mc);
    }

    // -------------------------------------------------------------------------
    // Link (lines 318-359, 378-604)
    // -------------------------------------------------------------------------

    /** enetc4_mac_config */
    method MacConfig(inband: bool, iface: PhyMode)
      modifies this
      ensures Bus() == MacConfigHw(old(Bus()), cfg.link, inband, iface) && Soft() == old(Soft())
    {
      var d := cfg.link;
      var val := Read(PM_IF_MODE);
      val := val - (d.ifMode + d.ena);
      if IsRgmii(iface) {
        val := val + d.ifRgmii;
        if inband {
          val := val + d.ena;
        }
      } else if iface == Rmii {
        val := val + d.ifRmii;
      } else if iface == Sgmii || iface == Base2500X {
        val := val + d.ifSgmii;
      } else if iface == Base10GR || iface == Xgmii || iface == Usxgmii {
        val := val + d.ifXgmii;
      } else {
        assert MacConfigValue(old(Bus()).Rd(PM_IF_MODE), d, inband, iface).None?;
        return;
      }
      assert MacConfigValue(old(Bus()).Rd(PM_IF_MODE), d, inband, iface) == Some(val);
      Write(PM_IF_MODE, val);
    }

    /** enetc4_set_port_speed: the cached speed moves to the request whenever PCR is written. */
    method SetPortSpeed(s: int)
      modifies this
      ensures Bus() == PortSpeedHw(old(Bus()), cfg.link, old(speed), s)
      ensures Soft() == old(Soft()).(speed := if SameSpeed(old(speed), s) then old(speed) else s)
    {
      if SameSpeed(speed, s) {
        return;
      }
      var val := Read(PCR);
      val := val - cfg.link.pspeed;
      val := val + (cfg.link.pspeed * cfg.link.pspeedVal(EncodedSpeed(s)));
      speed := s;
      Write(PCR, val);
    }

    /** enetc4_set_rgmii_mac */
    method SetRgmiiMac(s: int, full: bool)
      modifies this
      ensures Bus() == RgmiiHw(old(Bus()), cfg.link, s, full) && Soft() == old(Soft())
    {
      var d := cfg.link;
      var oldVal := Read(PM_IF_MODE);
      var val := oldVal - (d.ena + d.m10 + d.revmii);
      if s == SPEED_1000 {
        val := ReplaceBits(val, d.ssp, d.ssp1G);
      } else if s == SPEED_100 {
        val := ReplaceBits(val, d.ssp, d.ssp100M);
      } else if s == SPEED_10 {
        val := ReplaceBits(val, d.ssp, d.ssp10M);
      }
      val := ReplaceFlag(val, d.hd, !full);
      if val == oldVal {
        return;
      }
      Write(PM_IF_MODE, val);
    }

    /** enetc4_set_rmii_mac */
    method SetRmiiMac(s: int, full: bool)
      modifies this
      ensures Bus() == RmiiHw(old(Bus()), cfg.link, s, full) && Soft() == old(Soft())
    {
      var d := cfg.link;
      var oldVal := Read(PM_IF_MODE);
      var val := oldVal - (d.ena + d.ssp);
      if s == SPEED_100 {
        val := val - d.m10;
      } else if s == SPEED_10 {
        val := val + d.m10;
      }
      val := ReplaceFlag(val, d.hd, !full);
      if val == oldVal {
        return;
      }
      Write(PM_IF_MODE, val);
    }

    /** enetc4_set_hd_flow_control */
    method SetHdFlowControl(enable: bool)
      modifies this
      ensures Bus() == HdFlowControlHw(old(Bus()), cfg.link, cfg.halfDuplex, enable) && Soft() == old(Soft())
    {
      if !cfg.halfDuplex {
        return;
      }
      var oldVal := Read(PM_CMD_CFG);
      var val := ReplaceFlag(oldVal, cfg.link.hdFcEn, enable);
      if val == oldVal {
        return;
      }
      Write(PM_CMD_CFG, val);
    }

    /** enetc4_set_rx_pause */
    method SetRxPause(rxPause: bool)
      modifies this
      ensures Bus() == RxPauseHw(old(Bus()), cfg.link, rxPause) && Soft() == old(Soft())
    {
      var oldVal := Read(PM_CMD_CFG);
      var val := ReplaceFlag(oldVal, cfg.link.pauseIgn, !rxPause);
      if val == oldVal {
        return;
      }
      Write(PM_CMD_CFG, val);
    }

    /** enetc4_set_tx_pause: the ring loop, then the four PAUSE registers. */
    method SetTxPause(numRxBdr: nat, txPause: bool)
      modifies this
      ensures Bus() == TxPauseHw(old(Bus()), cfg.link, numRxBdr, txPause) && Soft() == old(Soft())
    {
      var d := cfg.link;
      for i := 0 to numRxBdr
        invariant Bus() == RingsCmHw(old(Bus()), d.rbmrCm, i, txPause) && Soft() == old(Soft())
      {
        var oldRbmr := Read(RBMR(i));
        var rbmr := ReplaceFlag(oldRbmr, d.rbmrCm, txPause);
        if rbmr != oldRbmr {
          Write(RBMR(i), rbmr);
        }
      }
      var initQuanta, refreshQuanta, onThresh, offThresh := 0, 0, 0, 0;
      if txPause {
        initQuanta := 0xffff;
        refreshQuanta := 0xffff / 2;
        onThresh := 3 * d.maxFrmSize;
        offThresh := 1 * d.maxFrmSize;
      }
      Write(PM_PAUSE_QUANTA, WordOf(initQuanta));
      Write(PM_PAUSE_THRESH, WordOf(refreshQuanta));
      Write(PPAUONTR, WordOf(onThresh));
      Write(PPAUOFFTR, WordOf(offThresh));
    }

    /** enetc4_enable_mac */
    method EnableMac(en: bool)
      modifies this
      ensures Bus() == EnableMacHw(old(Bus()), cfg.link, en) && Soft() == old(Soft())
    {
      var d := cfg.link;
      var val := Read(PM_CMD_CFG);
      ghost var v0 := val;
      val := val - (d.txEn + d.rxEn);
      if en {
        val := val + (d.txEn + d.rxEn);
        assert val == v0 + (d.txEn + d.rxEn);
      }
      Write(PM_CMD_CFG, val);
    }

    /** The flow-control half of enetc4_pl_mac_link_up, once the pause setting of `a` is resolved. */
    method ApplyPause(hdFc: bool, tx: bool, rx: bool, ghost a: LinkUpReq)
      requires PauseCfg(hdFc, tx, rx) == LinkPause(Ctx(), a)
      modifies this
      ensures Bus() == FlowStagesHw(old(Bus()), old(Ctx()), a) && Soft() == old(Soft())
    {
      ghost var c := Ctx();
      ghost var h2 := Bus();
      ghost var n := numRxRings;
      SetHdFlowControl(hdFc);
      ghost var h3 := Bus();
      assert h3 == HdFlowControlHw(h2, cfg.link, cfg.halfDuplex, hdFc);
      assert numRxRings == n;
      SetTxPause(numRxRings, tx);
      ghost var h4 := Bus();
      assert h4 == TxPauseHw(h3, cfg.link, n, tx);
      SetRxPause(rx);
      ghost var h5 := Bus();
      assert h5 == RxPauseHw(h4, cfg.link, rx);
      EnableMac(true);
      FlowStagesSteps(h2, h3, h4, h5, Bus(), c, a, PauseCfg(hdFc, tx, rx));
    }

    /** The MAC sub-mode step of enetc4_pl_mac_link_up. */
    method ApplySubMode(a: LinkUpReq)
      modifies this
      ensures Bus() == SubModeHw(old(Bus()), cfg.link, a) && Soft() == old(Soft())
    {
      if !a.inband && IsRgmii(a.iface) {
        SetRgmiiMac(a.speed, a.full);
      }
      if a.iface == Rmii {
        SetRmiiMac(a.speed, a.full);
      }
    }

    /** The PAUSE resolution of enetc4_pl_mac_link_up; it changes nothing. */
    method ResolveLinkPause(full: bool, txPause: bool, rxPause: bool) returns (hdFc: bool, tx: bool, rx: bool)
      ensures PauseCfg(hdFc, tx, rx) == ResolvePause(full, preemptionActive, txPause, rxPause)
    {
      tx, rx, hdFc := txPause, rxPause, false;
      if full {
        if preemptionActive {
          tx := false;
        }
      } else {
        if tx || rx {
          hdFc := true;
        }
        tx := false;
        rx := false;
      }
    }

    /** enetc4_pl_mac_link_up */
    method LinkUp(inband: bool, iface: PhyMode, s: int, full: bool, txPause: bool, rxPause: bool)
      modifies this
      ensures Bus() == LinkUpHw(old(Bus()), old(speed), old(Ctx()), LinkUpReq(inband, iface, s, full, txPause, rxPause))
      ensures Soft() == old(Soft()).(speed := if SameSpeed(old(speed), s) then old(speed) else s)
    {
      var a := LinkUpReq(inband, iface, s, full, txPause, rxPause);
      ghost var c := Ctx();
      ghost var h0 := Bus();
      SetPortSpeed(s);
      ghost var h1 := Bus();
      assert h1 == PortSpeedHw(h0, c.defs, old(speed), s);
      ApplySubMode(a);
      ghost var h2 := Bus();
      var hdFc, tx, rx := ResolveLinkPause(full, txPause, rxPause);
      assert Ctx() == c;
      ApplyPause(hdFc, tx, rx, a);
      assert Bus() == FlowStagesHw(h2, c, a);
      if cfg.hwQbu {
        Issue(MmLinkState(true));
      }
    }

    /** enetc4_pl_mac_link_down */
    method LinkDown()
      modifies this
      ensures Bus() == LinkDownHw(old(Bus()), old(Ctx())) && Soft() == old(Soft())
    {
      if cfg.hwQbu {
        Issue(MmLinkState(false));
      }
      EnableMac(false);
    }

    // -------------------------------------------------------------------------
    // SI setup (lines 42-141)
    // -------------------------------------------------------------------------

    /** A loop writing regs[i] := vals[i] for i = 0 .. n-1. */
    method WriteAll(rs: seq<RegId>, vals: seq<Word>, n: nat)
      requires n <= |rs| && |rs| == |vals|
      modifies this
      ensures Bus() == WriteSeq(old(Bus()), rs, vals, n) && Soft() == old(Soft())
    {
      for i := 0 to n
        invariant Bus() == WriteSeq(old(Bus()), rs, vals, i) && Soft() == old(Soft())
      {
        Write(rs[i], vals[i]);
      }
    }

    /** enetc4_set_si_msix_num */
    method SetSiMsixNum()
      modifies this
      ensures Bus() == SetSiMsixNumHw(old(Bus()), cfg.caps) && Soft() == old(Soft())
    {
      // the PF takes its share plus the remainder, each VSI an even share
      Write(PSICFGR2(0), WordOf(MsixField(PfMsix(cfg.caps.numMsix, cfg.caps.numVsi))));
      var val := WordOf(MsixField(VsiMsix(cfg.caps.numMsix, cfg.caps.numVsi)));
      WriteAll(VsiMsixRegs(cfg.caps.numVsi), Repeat(val, cfg.caps.numVsi), cfg.caps.numVsi);
    }

    /** enetc4_pf_set_si_vlan_promisc with the map of all SIs */
    method SetSiVlanPromisc()
      modifies this
      ensures Bus() == SetSiVlanPromiscHw(old(Bus()), cfg.setup) && Soft() == old(Soft())
    {
      var val := Read(PSIPVMR);
      val := ReplaceBits(val, cfg.setup.vpMask, cfg.setup.vpAll);
      Write(PSIPVMR, val);
    }

    /** enetc4_port_si_configure; the ring split divides by the VSI count. */
    method PortSiConfigure()
      requires cfg.caps.numVsi > 0
      modifies this
      ensures Bus() == PortSiConfigureHw(old(Bus()), cfg.setup, cfg.caps) && Soft() == old(Soft())
    {
      var caps, d := cfg.caps, cfg.setup;
      ghost var h0 := Bus();
      var numRxBdr, numTxBdr;
      if caps.numRxBdr < SI_MAX_RING_NUM + caps.numVsi {
        numRxBdr := caps.numRxBdr - caps.numVsi;
      } else {
        numRxBdr := SI_MAX_RING_NUM;
      }
      if caps.numTxBdr < SI_MAX_RING_NUM + caps.numVsi {
        numTxBdr := caps.numTxBdr - caps.numVsi;
      } else {
        numTxBdr := SI_MAX_RING_NUM;
      }
      assert PfCfgValue(d, numRxBdr, numTxBdr) == PfCfg(d, caps);
      Write(PSICFGR0(0), PfCfgValue(d, numRxBdr, numTxBdr));
      // each VSI gets an even share of the rings the PF left
      var val := VsiCfgValue(d, VsiRings(caps.numRxBdr, caps.numVsi), VsiRings(caps.numTxBdr, caps.numVsi));
      WriteAll(VsiCfgRegs(caps.numVsi), Repeat(val, caps.numVsi), caps.numVsi);
      assert Bus() == SiRingsHw(h0, d, caps);
      ghost var h1 := Bus();
      Write(PSIVLANFMR, d.vlanFmrVs);
      SetSiVlanPromisc();
      Write(PSIPMMR, {});
      SetSiMsixNum();
      assert Bus() == SiModesHw(h1, d, caps);
    }

    /** enetc4_pf_set_tc_msdu */
    method SetTcMsdu(maxSdu: seq<U32>)
      requires |maxSdu| >= NUM_TC
      modifies this
      ensures Bus() == SetTcMsduHw(old(Bus()), cfg.setup, maxSdu) && Soft() == old(Soft())
    {
      var d := cfg.setup;
      for tc := 0 to NUM_TC
        invariant Bus() == WriteSeq(old(Bus()), TcRegs(NUM_TC), MsduValues(d, maxSdu), tc) && Soft() == old(Soft())
      {
        var size := d.maxFrmSize;
        if maxSdu[tc] != 0 {
          size := maxSdu[tc] + VLAN_ETH_HLEN;
        }
        var val := ReplaceBits(WordOf(size), d.sduType, d.sduTypeMpdu);
        Write(PTCTMSDUR(tc), val);
      }
    }

    /** enetc4_pf_reset_tc_msdu */
    method ResetTcMsdu()
      modifies this
      ensures Bus() == ResetTcMsduHw(old(Bus()), cfg.setup) && Soft() == old(Soft())
    {
      var d := cfg.setup;
      var val := ReplaceBits(WordOf(d.maxFrmSize), d.sduType, d.sduTypeMpdu);
      WriteAll(TcRegs(NUM_TC), Repeat(val, NUM_TC), NUM_TC);
    }

    /** enetc4_set_trx_frame_size */
    method SetTrxFrameSize()
      modifies this
      ensures Bus() == SetTrxFrameSizeHw(old(Bus()), cfg.setup) && Soft() == old(Soft())
    {
      Write(PM_MAXFRM, cfg.setup.setMaxFrm(cfg.setup.maxFrmSize));
      ResetTcMsdu();
    }

    /** enetc4_pf_set_si_primary_mac */
    method SetSiPrimaryMac(si: nat, a: MacAddr)
      modifies this
      ensures Bus() == SetSiPrimaryMacHw(old(Bus()), si, a) && Soft() == old(Soft())
    {
      var lower := a[4] as nat + 0x100 * a[5] as nat;
      var upper := a[0] as nat + 0x100 * a[1] as nat + 0x1_0000 * a[2] as nat + 0x100_0000 * a[3] as nat;
      if si != 0 {
        Write(PSIPMAR0(si), WordOf(upper));
        Write(PSIPMAR1(si), WordOf(lower));
      } else {
        Write(PMAR0, WordOf(upper));
        Write(PMAR1, WordOf(lower));
      }
    }

    /** enetc4_pf_get_si_primary_mac */
    method GetSiPrimaryMac(si: nat) returns (a: MacAddr)
      ensures a == PortSetup.GetSiPrimaryMac(Bus(), si)
    {
      var hi := Read(PSIPMAR0(si));
      var lo := Read(PSIPMAR1(si));
      Pow2Of32();
      var upper: U32 := WordNat(hi, 0, 32);
      var lower: U16 := WordNat(lo, 0, 16);
      a := [upper % 0x100, (upper / 0x100) % 0x100, (upper / 0x1_0000) % 0x100, upper / 0x100_0000,
            lower % 0x100, lower / 0x100];
    }

    /** enetc4_pf_set_si_based_vlan */
    method SetSiBasedVlan(si: nat, vlan: U16, qos: Octet)
      modifies this
      ensures Bus() == SetSiBasedVlanHw(old(Bus()), cfg.setup, si, vlan, qos) && Soft() == old(Soft())
    {
      var d := cfg.setup;
      var val: Word := {};
      if vlan != 0 {
        val := d.vlanE + (WordOf(vlan) * d.vlanVid);
        val := ReplaceBits(val, d.vlanPcp, d.pcpOf(qos));
      }
      Write(PSIVLANR(si), val);
    }
  }
}
