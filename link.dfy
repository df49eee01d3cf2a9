/**
 * The MAC reconfiguration the phylink layer drives on the ENETC v4 port:
 * the interface mode chosen at mac_config time, and on link-up the port
 * speed, the RGMII/RMII sub-mode, the PAUSE resolution (PAUSE only in full
 * duplex, never while frame preemption is active, half-duplex back pressure
 * instead), the per-ring congestion bits with the PAUSE quanta and FIFO
 * thresholds, and the MAC transmit/receive enables.
 *
 * Every step is a function from the hardware state before it to the state
 * after it; the methods of Enetc4Pf.Port are specified by these functions.
 */
module LinkConfig {
  import opened Registers

  // ---------------------------------------------------------------------------
  // Register fields (their positions are in the register header)
  // ---------------------------------------------------------------------------

  /**
   * The fields and field values the link code uses. Masks are sets of bit
   * positions; values that the header defines for a field are given already
   * placed in it. `pspeedVal(s)` is PCR_PSPEED_VAL(s).
   */
  datatype LinkDefs = LinkDefs(
    ifMode: Word, ena: Word, m10: Word, revmii: Word, ssp: Word, hd: Word,  // PM_IF_MODE fields
    ifRgmii: Word, ifRmii: Word, ifSgmii: Word, ifXgmii: Word,              // IFMODE_* values
    ssp1G: Word, ssp100M: Word, ssp10M: Word,                               // SSP_* values
    pspeed: Word, pspeedVal: int -> Word,                                   // PCR_PSPEED
    hdFcEn: Word, pauseIgn: Word, txEn: Word, rxEn: Word,                   // PM_CMD_CFG fields
    rbmrCm: Word,                                                           // ENETC_RBMR_CM
    maxFrmSize: nat)                                                        // ENETC4_MAC_MAXFRM_SIZE
  {
    /**
     * What the header guarantees about these fields: the fields of one
     * register do not overlap, and every interface-mode value lies inside the
     * IFMODE field. (The flags that the code sets with u32_replace_bits(v, 1,
     * m) are one bit wide, which is what makes ReplaceFlag their model; no
     * proof needs that fact.)
     */
    ghost predicate Valid() {
      IfModeValid() && CmdCfgValid()
    }

    /** The PM_IF_MODE fields. */
    ghost predicate IfModeValid() {
      && (ena + m10 + revmii) !! (ssp + hd) && ssp !! hd && ena !! m10 && ena !! ifMode
      && ifRgmii <= ifMode && ifRmii <= ifMode && ifSgmii <= ifMode && ifXgmii <= ifMode
    }

    /** The PM_CMD_CFG fields. */
    ghost predicate CmdCfgValid() {
      hdFcEn !! pauseIgn && hdFcEn !! (txEn + rxEn) && pauseIgn !! (txEn + rxEn)
    }
  }

  /** The speed values of the ethtool interface the code distinguishes. */
  const SPEED_10: int := 10
  const SPEED_100: int := 100
  const SPEED_1000: int := 1000
  const SPEED_2500: int := 2500
  const SPEED_10000: int := 10000

  /** The PHY interface modes the code distinguishes; every other mode is OtherMode. */
  datatype PhyMode =
    | Rgmii | RgmiiId | RgmiiRxid | RgmiiTxid
    | Rmii | Sgmii | Base2500X | Base10GR | Xgmii | Usxgmii
    | OtherMode(id: nat)

  /** phy_interface_mode_is_rgmii */
  predicate IsRgmii(m: PhyMode) {
    m == Rgmii || m == RgmiiId || m == RgmiiRxid || m == RgmiiTxid
  }

  // ---------------------------------------------------------------------------
  // enetc4_mac_config (lines 318-359)
  // ---------------------------------------------------------------------------

  /**
   * The new PM_IF_MODE value for an interface mode: IFMODE and ENA cleared,
   * then the mode's IFMODE value, with ENA for an RGMII mode with in-band
   * status. None for an unsupported mode, where the register is not written.
   */
  function MacConfigValue(v: Word, d: LinkDefs, inband: bool, iface: PhyMode): Option<Word> {
    var base := v - (d.ifMode + d.ena);
    if IsRgmii(iface) then Some(if inband then base + d.ifRgmii + d.ena else base + d.ifRgmii)
    else if iface == Rmii then Some(base + d.ifRmii)
    else if iface == Sgmii || iface == Base2500X then Some(base + d.ifSgmii)
    else if iface == Base10GR || iface == Xgmii || iface == Usxgmii then Some(base + d.ifXgmii)
    else None
  }

  /** The IFMODE value the source selects for each supported interface mode. */
  function IfModeOf(d: LinkDefs, iface: PhyMode): Option<Word> {
    if IsRgmii(iface) then Some(d.ifRgmii)
    else if iface == Rmii then Some(d.ifRmii)
    else if iface == Sgmii || iface == Base2500X then Some(d.ifSgmii)
    else if iface == Base10GR || iface == Xgmii || iface == Usxgmii then Some(d.ifXgmii)
    else None
  }

  /**
   * A supported mode gets its IFMODE value, ENA is set exactly for RGMII with
   * in-band status, and no other bit changes; an unsupported mode is refused.
   */
  lemma MacConfigFields(v: Word, d: LinkDefs, inband: bool, iface: PhyMode)
    requires d.IfModeValid()
    ensures MacConfigValue(v, d, inband, iface).None? <==> IfModeOf(d, iface).None?
    ensures MacConfigValue(v, d, inband, iface).Some? ==>
              var r := MacConfigValue(v, d, inband, iface).value;
              && r * d.ifMode == IfModeOf(d, iface).value
              && r * d.ena == (if inband && IsRgmii(iface) then d.ena else {})
              && r - (d.ifMode + d.ena) == v - (d.ifMode + d.ena)
  {
    if IfModeOf(d, iface).Some? {
      var x := IfModeOf(d, iface).value;
      var e := if inband && IsRgmii(iface) then d.ena else {};
      var r := MacConfigValue(v, d, inband, iface).value;
      assert r == (v - (d.ifMode + d.ena)) + x + e;
      assert x <= d.ifMode;
      forall i | i in e ensures i !in d.ifMode {
        assert i in d.ifMode ==> i in d.ena * d.ifMode;
      }
      forall i | i in x ensures i !in d.ena {
        assert i in d.ena ==> i in d.ena * d.ifMode;
      }
      assert r * d.ifMode == x;
      assert r * d.ena == e;
    }
  }

  /**
   * enetc4_mac_config: PM_IF_MODE is written once for a supported mode, with
   * the value whose fields MacConfigFields describes, and not at all otherwise.
   */
  function MacConfigHw(h: Hw, d: LinkDefs, inband: bool, iface: PhyMode): (r: Hw)
    ensures MacConfigValue(h.Rd(PM_IF_MODE), d, inband, iface).None? ==> r == h
    ensures MacConfigValue(h.Rd(PM_IF_MODE), d, inband, iface).Some? ==>
              && r.Rd(PM_IF_MODE) == MacConfigValue(h.Rd(PM_IF_MODE), d, inband, iface).value
              && r.trace == h.trace + [RegWrite(PM_IF_MODE, r.Rd(PM_IF_MODE))]
              && SameOutside(r, h, {PM_IF_MODE})
  {
    match MacConfigValue(h.Rd(PM_IF_MODE), d, inband, iface)
    case None => h
    case Some(v) => h.Wr(PM_IF_MODE, v)
  }

  // ---------------------------------------------------------------------------
  // enetc4_set_port_speed (lines 378-403)
  // ---------------------------------------------------------------------------

  /** The comparison `speed == old_speed` between an int and a u32: both taken modulo 2^32. */
  predicate SameSpeed(cached: int, speed: int) {
    cached % 0x1_0000_0000 == speed % 0x1_0000_0000
  }

  /** For speeds that fit an int the comparison is plain equality. */
  lemma SameSpeedIsEquality(cached: int, speed: int)
    requires -0x8000_0000 <= cached < 0x8000_0000 && -0x8000_0000 <= speed < 0x8000_0000
    ensures SameSpeed(cached, speed) <==> cached == speed
  {
    if SameSpeed(cached, speed) {
      var a := cached + 0x8000_0000;
      var b := speed + 0x8000_0000;
      assert a % 0x1_0000_0000 == b % 0x1_0000_0000;
      assert a == b;
    }
  }

  /** The speed PSPEED is programmed for: an unsupported speed is encoded as SPEED_10. */
  function EncodedSpeed(speed: int): (s: int)
    ensures s in {SPEED_10, SPEED_100, SPEED_1000, SPEED_2500, SPEED_10000}
    ensures speed in {SPEED_10, SPEED_100, SPEED_1000, SPEED_2500, SPEED_10000} ==> s == speed
    ensures speed !in {SPEED_10, SPEED_100, SPEED_1000, SPEED_2500, SPEED_10000} ==> s == SPEED_10
  {
    if speed == SPEED_10 || speed == SPEED_100 || speed == SPEED_1000
       || speed == SPEED_2500 || speed == SPEED_10000
    then speed
    else SPEED_10
  }

  /** PCR with PSPEED cleared and the encoding of the speed put in. */
  function SpeedValue(v: Word, d: LinkDefs, speed: int): (r: Word)
    ensures r * d.pspeed == d.pspeedVal(EncodedSpeed(speed)) * d.pspeed
    ensures r - d.pspeed == v - d.pspeed
  {
    (v - d.pspeed) + (d.pspeed * d.pspeedVal(EncodedSpeed(speed)))
  }

  function PortSpeedHw(h: Hw, d: LinkDefs, cached: int, speed: int): Hw {
    if SameSpeed(cached, speed) then h else h.Wr(PCR, SpeedValue(h.Rd(PCR), d, speed))
  }

  /**
   * No write when the cached speed is the requested one; otherwise exactly one
   * write of PCR, which changes only the PSPEED field.
   */
  lemma PortSpeedEffect(h: Hw, d: LinkDefs, cached: int, speed: int)
    ensures SameSpeed(cached, speed) ==> PortSpeedHw(h, d, cached, speed) == h
    ensures !SameSpeed(cached, speed) ==>
              && PortSpeedHw(h, d, cached, speed).trace == h.trace + [RegWrite(PCR, SpeedValue(h.Rd(PCR), d, speed))]
              && PortSpeedHw(h, d, cached, speed).Rd(PCR) * d.pspeed == d.pspeedVal(EncodedSpeed(speed)) * d.pspeed
              && PortSpeedHw(h, d, cached, speed).Rd(PCR) - d.pspeed == h.Rd(PCR) - d.pspeed
    ensures SameOutside(PortSpeedHw(h, d, cached, speed), h, {PCR})
  {
  }

  // ---------------------------------------------------------------------------
  // enetc4_set_rgmii_mac, enetc4_set_rmii_mac (lines 405-456)
  // ---------------------------------------------------------------------------

  /**
   * The RGMII sub-mode: ENA, M10 and REVMII cleared, SSP set for 10, 100 and
   * 1000 Mbps (kept otherwise), HD set iff the link is not full duplex.
   */
  function RgmiiValue(v: Word, d: LinkDefs, speed: int, full: bool): Word {
    var v0 := v - (d.ena + d.m10 + d.revmii);
    var v1 := if speed == SPEED_1000 then ReplaceBits(v0, d.ssp, d.ssp1G)
              else if speed == SPEED_100 then ReplaceBits(v0, d.ssp, d.ssp100M)
              else if speed == SPEED_10 then ReplaceBits(v0, d.ssp, d.ssp10M)
              else v0;
    ReplaceFlag(v1, d.hd, !full)
  }

  /** The SSP field the RGMII step leaves: the speed's code, or the old field for other speeds. */
  function RgmiiSsp(v: Word, d: LinkDefs, speed: int): Word {
    if speed == SPEED_1000 then d.ssp1G * d.ssp
    else if speed == SPEED_100 then d.ssp100M * d.ssp
    else if speed == SPEED_10 then d.ssp10M * d.ssp
    else v * d.ssp
  }

  /** The fields of the RGMII value, and its idempotence. */
  lemma RgmiiFields(v: Word, d: LinkDefs, speed: int, full: bool)
    requires d.IfModeValid()
    ensures RgmiiValue(v, d, speed, full) * (d.ena + d.m10 + d.revmii) == {}
    ensures RgmiiValue(v, d, speed, full) * d.hd == (if full then {} else d.hd)
    ensures RgmiiValue(v, d, speed, full) * d.ssp == RgmiiSsp(v, d, speed)
    ensures var f := d.ena + d.m10 + d.revmii + d.ssp + d.hd;
            RgmiiValue(v, d, speed, full) - f == v - f
    ensures RgmiiValue(RgmiiValue(v, d, speed, full), d, speed, full) == RgmiiValue(v, d, speed, full)
  {
    var c := d.ena + d.m10 + d.revmii;
    var r := RgmiiValue(v, d, speed, full);
    forall i | i in d.ssp + d.hd ensures i !in c {
      assert i in c ==> i in c * (d.ssp + d.hd);
    }
    forall i | i in d.ssp ensures i !in d.hd {
      assert i in d.hd ==> i in d.ssp * d.hd;
    }
    assert r * d.ssp == RgmiiSsp(v, d, speed);
    assert RgmiiSsp(r, d, speed) == RgmiiSsp(v, d, speed);
    assert RgmiiValue(r, d, speed, full) == r;
  }

  /**
   * The RMII sub-mode: ENA and SSP cleared, M10 cleared at 100 Mbps and set at
   * 10 Mbps (kept otherwise), HD set iff the link is not full duplex.
   */
  function RmiiValue(v: Word, d: LinkDefs, speed: int, full: bool): Word {
    var v0 := v - (d.ena + d.ssp);
    var v1 := if speed == SPEED_100 then v0 - d.m10
              else if speed == SPEED_10 then v0 + d.m10
              else v0;
    ReplaceFlag(v1, d.hd, !full)
  }

  /** The M10 field the RMII step leaves. */
  function RmiiM10(v: Word, d: LinkDefs, speed: int): Word {
    if speed == SPEED_100 then {} else if speed == SPEED_10 then d.m10 else v * d.m10
  }

  /** The fields of the RMII value, and its idempotence. */
  lemma RmiiFields(v: Word, d: LinkDefs, speed: int, full: bool)
    requires d.IfModeValid()
    ensures RmiiValue(v, d, speed, full) * (d.ena + d.ssp) == {}
    ensures RmiiValue(v, d, speed, full) * d.hd == (if full then {} else d.hd)
    ensures RmiiValue(v, d, speed, full) * d.m10 == RmiiM10(v, d, speed)
    ensures var f := d.ena + d.m10 + d.ssp + d.hd;
            RmiiValue(v, d, speed, full) - f == v - f
    ensures RmiiValue(RmiiValue(v, d, speed, full), d, speed, full) == RmiiValue(v, d, speed, full)
  {
    var r := RmiiValue(v, d, speed, full);
    forall i | i in d.hd ensures i !in d.ena + d.ssp + d.m10 {
      assert i in d.ena + d.m10 ==> i in (d.ena + d.m10 + d.revmii) * (d.ssp + d.hd);
      assert i in d.ssp ==> i in d.ssp * d.hd;
    }
    forall i | i in d.m10 ensures i !in d.ena + d.ssp {
      assert i in d.ena ==> i in d.ena * d.m10;
      assert i in d.ssp ==> i in (d.ena + d.m10 + d.revmii) * (d.ssp + d.hd);
    }
    assert r * d.m10 == RmiiM10(v, d, speed);
    assert RmiiM10(r, d, speed) == RmiiM10(v, d, speed);
    assert RmiiValue(r, d, speed, full) == r;
  }

  function RgmiiHw(h: Hw, d: LinkDefs, speed: int, full: bool): Hw {
    h.WrIfChanged(PM_IF_MODE, RgmiiValue(h.Rd(PM_IF_MODE), d, speed, full))
  }

  function RmiiHw(h: Hw, d: LinkDefs, speed: int, full: bool): Hw {
    h.WrIfChanged(PM_IF_MODE, RmiiValue(h.Rd(PM_IF_MODE), d, speed, full))
  }

  // ---------------------------------------------------------------------------
  // PAUSE resolution (lines 564-579)
  // ---------------------------------------------------------------------------

  /** The flow-control settings link-up programs. */
  datatype PauseCfg = PauseCfg(hdFc: bool, tx: bool, rx: bool)

  /**
   * Full duplex keeps the negotiated PAUSE flags, except that active frame
   * preemption switches TX PAUSE off; half duplex never uses PAUSE frames and
   * turns half-duplex flow control on iff either flag was negotiated.
   */
  function ResolvePause(full: bool, preemptionActive: bool, txPause: bool, rxPause: bool): (p: PauseCfg)
    ensures full ==> !p.hdFc && (p.tx <==> txPause && !preemptionActive) && (p.rx <==> rxPause)
    ensures !full ==> (p.hdFc <==> txPause || rxPause) && !p.tx && !p.rx
  {
    if full then PauseCfg(false, if preemptionActive then false else txPause, rxPause)
    else PauseCfg(txPause || rxPause, false, false)
  }

  /** PAUSE frames are sent or honoured only on a full-duplex link, and never sent during preemption. */
  lemma PauseOnlyFullDuplex(full: bool, preemptionActive: bool, txPause: bool, rxPause: bool)
    ensures var p := ResolvePause(full, preemptionActive, txPause, rxPause);
            && (p.tx ==> full && !preemptionActive && txPause)
            && (p.rx ==> full && rxPause)
            && (p.hdFc ==> !full)
            && (p.tx || p.rx || p.hdFc <==> (txPause && !(full && preemptionActive)) || rxPause)
  {
  }

  // ---------------------------------------------------------------------------
  // Flow control and MAC enable (lines 458-542)
  // ---------------------------------------------------------------------------

  /** enetc4_set_hd_flow_control: nothing at all on a port without half-duplex support. */
  function HdFlowControlHw(h: Hw, d: LinkDefs, halfDuplexCap: bool, enable: bool): Hw {
    if !halfDuplexCap then h
    else h.WrIfChanged(PM_CMD_CFG, ReplaceFlag(h.Rd(PM_CMD_CFG), d.hdFcEn, enable))
  }

  /** enetc4_set_rx_pause: PAUSE_IGN is the negation of rx_pause. */
  function RxPauseHw(h: Hw, d: LinkDefs, rxPause: bool): Hw {
    h.WrIfChanged(PM_CMD_CFG, ReplaceFlag(h.Rd(PM_CMD_CFG), d.pauseIgn, !rxPause))
  }

  /** enetc4_enable_mac: TX_EN and RX_EN both set or both cleared, written unconditionally. */
  function EnableMacHw(h: Hw, d: LinkDefs, en: bool): Hw {
    h.Wr(PM_CMD_CFG, ReplaceFlag(h.Rd(PM_CMD_CFG), d.txEn + d.rxEn, en))
  }

  /** enetc4_enable_mac changes only TX_EN and RX_EN of PM_CMD_CFG, with one write. */
  lemma EnableMacEffect(h: Hw, d: LinkDefs, en: bool)
    ensures EnableMacHw(h, d, en).Rd(PM_CMD_CFG) * (d.txEn + d.rxEn) == (if en then d.txEn + d.rxEn else {})
    ensures EnableMacHw(h, d, en).Rd(PM_CMD_CFG) - (d.txEn + d.rxEn) == h.Rd(PM_CMD_CFG) - (d.txEn + d.rxEn)
    ensures SameOutside(EnableMacHw(h, d, en), h, {PM_CMD_CFG})
    ensures |EnableMacHw(h, d, en).trace| == |h.trace| + 1
  {
  }

  /** The effect of the half-duplex flow-control and RX PAUSE helpers on PM_CMD_CFG. */
  lemma CmdCfgHelpersEffect(h: Hw, d: LinkDefs, halfDuplexCap: bool, enable: bool, rxPause: bool)
    ensures halfDuplexCap ==>
              && HdFlowControlHw(h, d, halfDuplexCap, enable).Rd(PM_CMD_CFG) * d.hdFcEn == (if enable then d.hdFcEn else {})
              && HdFlowControlHw(h, d, halfDuplexCap, enable).Rd(PM_CMD_CFG) - d.hdFcEn == h.Rd(PM_CMD_CFG) - d.hdFcEn
    ensures !halfDuplexCap ==> HdFlowControlHw(h, d, halfDuplexCap, enable) == h
    ensures RxPauseHw(h, d, rxPause).Rd(PM_CMD_CFG) * d.pauseIgn == (if rxPause then {} else d.pauseIgn)
    ensures RxPauseHw(h, d, rxPause).Rd(PM_CMD_CFG) - d.pauseIgn == h.Rd(PM_CMD_CFG) - d.pauseIgn
    ensures SameOutside(HdFlowControlHw(h, d, halfDuplexCap, enable), h, {PM_CMD_CFG})
    ensures SameOutside(RxPauseHw(h, d, rxPause), h, {PM_CMD_CFG})
  {
  }

  // ---------------------------------------------------------------------------
  // enetc4_set_tx_pause (lines 487-530)
  // ---------------------------------------------------------------------------

  /** The congestion-management step of one RX ring: written only if CM changes. */
  function RingCmHw(h: Hw, cm: Word, ring: nat, txPause: bool): Hw {
    h.WrIfChanged(RBMR(ring), ReplaceFlag(h.Rd(RBMR(ring)), cm, txPause))
  }

  /** The ring loop over rings 0 .. n-1, in order. */
  function RingsCmHw(h: Hw, cm: Word, n: nat, txPause: bool): Hw
    decreases n
  {
    if n == 0 then h else RingCmHw(RingsCmHw(h, cm, n - 1, txPause), cm, n - 1, txPause)
  }

  /** The RBMR registers of rings 0 .. n-1. */
  function RingRegs(n: nat): set<RegId> {
    set i | 0 <= i < n :: RBMR(i)
  }

  /** The CM bit of each of the rings 0 .. n-1 equals `txPause`. */
  ghost predicate RingsAt(h: Hw, cm: Word, n: nat, txPause: bool) {
    forall j :: 0 <= j < n ==> h.Rd(RBMR(j)) * cm == (if txPause then cm else {})
  }

  /** A set of registers holding no RBMR register. */
  ghost predicate NoRingReg(s: set<RegId>) {
    forall q :: q in s ==> !q.RBMR?
  }

  lemma RingsAtFrame(a: Hw, b: Hw, cm: Word, n: nat, txPause: bool, touched: set<RegId>)
    requires RingsAt(b, cm, n, txPause) && SameOutside(a, b, touched) && NoRingReg(touched)
    ensures RingsAt(a, cm, n, txPause)
  {
    forall j | 0 <= j < n ensures a.Rd(RBMR(j)) * cm == (if txPause then cm else {}) {
      assert RBMR(j) !in touched;
    }
  }

  /**
   * After the ring loop every ring's CM bit is `txPause` and its other bits are
   * as before; nothing but the RBMR registers of those rings changes.
   */
  lemma {:induction false} RingsCmEffect(h: Hw, cm: Word, n: nat, txPause: bool)
    ensures RingsAt(RingsCmHw(h, cm, n, txPause), cm, n, txPause)
    ensures forall j :: 0 <= j < n ==>
              RingsCmHw(h, cm, n, txPause).Rd(RBMR(j)) - cm == h.Rd(RBMR(j)) - cm
    ensures SameOutside(RingsCmHw(h, cm, n, txPause), h, RingRegs(n))
  {
    if n > 0 {
      var h1 := RingsCmHw(h, cm, n - 1, txPause);
      RingsCmEffect(h, cm, n - 1, txPause);
      var r := RingCmHw(h1, cm, n - 1, txPause);
      assert SameOutside(r, h1, {RBMR(n - 1)});
      assert RingRegs(n - 1) + {RBMR(n - 1)} == RingRegs(n);
      SameOutsideTrans(r, h1, h, {RBMR(n - 1)}, RingRegs(n - 1));
      assert h1.Rd(RBMR(n - 1)) == h.Rd(RBMR(n - 1)) by {
        assert RBMR(n - 1) !in RingRegs(n - 1);
      }
    }
  }

  /** Every ring's CM bit already has the value: the loop writes nothing. */
  lemma {:induction false} RingsCmSettled(h: Hw, cm: Word, n: nat, txPause: bool)
    requires RingsAt(h, cm, n, txPause)
    ensures RingsCmHw(h, cm, n, txPause) == h
  {
    if n > 0 {
      RingsCmSettled(h, cm, n - 1, txPause);
      ReplaceFlagUnchanged(h.Rd(RBMR(n - 1)), cm, txPause);
    }
  }

  /** PM_PAUSE_QUANTA: the maximum quanta while TX PAUSE is on. */
  function InitQuanta(txPause: bool): nat {
    if txPause then 0xffff else 0
  }

  /** PM_PAUSE_THRESH: follow-up PAUSE frames at half the quanta. */
  function RefreshQuanta(txPause: bool): nat {
    if txPause then 0xffff / 2 else 0
  }

  /** PPAUONTR: three maximum-size frames waiting in the FIFO. */
  function PauseOnThresh(d: LinkDefs, txPause: bool): nat {
    if txPause then 3 * d.maxFrmSize else 0
  }

  /** PPAUOFFTR: one maximum-size frame. */
  function PauseOffThresh(d: LinkDefs, txPause: bool): nat {
    if txPause then 1 * d.maxFrmSize else 0
  }

  /** The four unconditional writes that end enetc4_set_tx_pause, in order. */
  function PauseWrites(d: LinkDefs, txPause: bool): seq<Event> {
    [RegWrite(PM_PAUSE_QUANTA, WordOf(InitQuanta(txPause))),
     RegWrite(PM_PAUSE_THRESH, WordOf(RefreshQuanta(txPause))),
     RegWrite(PPAUONTR, WordOf(PauseOnThresh(d, txPause))),
     RegWrite(PPAUOFFTR, WordOf(PauseOffThresh(d, txPause)))]
  }

  const PauseRegs: set<RegId> := {PM_PAUSE_QUANTA, PM_PAUSE_THRESH, PPAUONTR, PPAUOFFTR}

  function PauseRegsHw(h: Hw, d: LinkDefs, txPause: bool): Hw {
    h.Wr(PM_PAUSE_QUANTA, WordOf(InitQuanta(txPause)))
     .Wr(PM_PAUSE_THRESH, WordOf(RefreshQuanta(txPause)))
     .Wr(PPAUONTR, WordOf(PauseOnThresh(d, txPause)))
     .Wr(PPAUOFFTR, WordOf(PauseOffThresh(d, txPause)))
  }

  function TxPauseHw(h: Hw, d: LinkDefs, numRxRings: nat, txPause: bool): Hw {
    PauseRegsHw(RingsCmHw(h, d.rbmrCm, numRxRings, txPause), d, txPause)
  }

  /** The PAUSE values: 0xffff, 0x7fff, 3 and 1 maximum frames when on, all zero when off. */
  lemma PauseValues(d: LinkDefs, txPause: bool)
    ensures txPause ==> InitQuanta(txPause) == 0xffff && RefreshQuanta(txPause) == 0x7fff
                        && PauseOnThresh(d, txPause) == 3 * d.maxFrmSize
                        && PauseOffThresh(d, txPause) == d.maxFrmSize
    ensures !txPause ==> InitQuanta(txPause) == 0 && RefreshQuanta(txPause) == 0
                         && PauseOnThresh(d, txPause) == 0 && PauseOffThresh(d, txPause) == 0
  {
  }

  /** The four PAUSE registers hold the values of `txPause`. */
  ghost predicate PauseRegsAt(h: Hw, d: LinkDefs, txPause: bool) {
    && h.Rd(PM_PAUSE_QUANTA) == WordOf(InitQuanta(txPause))
    && h.Rd(PM_PAUSE_THRESH) == WordOf(RefreshQuanta(txPause))
    && h.Rd(PPAUONTR) == WordOf(PauseOnThresh(d, txPause))
    && h.Rd(PPAUOFFTR) == WordOf(PauseOffThresh(d, txPause))
  }

  lemma PauseRegsEffect(h: Hw, d: LinkDefs, txPause: bool)
    ensures PauseRegsHw(h, d, txPause).trace == h.trace + PauseWrites(d, txPause)
    ensures PauseRegsAt(PauseRegsHw(h, d, txPause), d, txPause)
    ensures SameOutside(PauseRegsHw(h, d, txPause), h, PauseRegs)
  {
  }

  /**
   * enetc4_set_tx_pause: every ring's CM bit equals `txPause`, the PAUSE
   * registers hold the values of `txPause`, and no other register changes.
   */
  lemma TxPauseEffect(h: Hw, d: LinkDefs, numRxRings: nat, txPause: bool)
    ensures RingsAt(TxPauseHw(h, d, numRxRings, txPause), d.rbmrCm, numRxRings, txPause)
    ensures PauseRegsAt(TxPauseHw(h, d, numRxRings, txPause), d, txPause)
    ensures SameOutside(TxPauseHw(h, d, numRxRings, txPause), h, RingRegs(numRxRings) + PauseRegs)
  {
    var hr := RingsCmHw(h, d.rbmrCm, numRxRings, txPause);
    RingsCmEffect(h, d.rbmrCm, numRxRings, txPause);
    PauseRegsEffect(hr, d, txPause);
    assert NoRingReg(PauseRegs);
    RingsAtFrame(PauseRegsHw(hr, d, txPause), hr, d.rbmrCm, numRxRings, txPause, PauseRegs);
    SameOutsideTrans(PauseRegsHw(hr, d, txPause), hr, h, PauseRegs, RingRegs(numRxRings));
  }

  /** From rings and PAUSE registers already at the values, only the four PAUSE writes happen. */
  lemma TxPauseSettled(h: Hw, d: LinkDefs, numRxRings: nat, txPause: bool)
    requires RingsAt(h, d.rbmrCm, numRxRings, txPause) && PauseRegsAt(h, d, txPause)
    ensures SameOutside(TxPauseHw(h, d, numRxRings, txPause), h, {})
    ensures TxPauseHw(h, d, numRxRings, txPause).trace == h.trace + PauseWrites(d, txPause)
  {
    RingsCmSettled(h, d.rbmrCm, numRxRings, txPause);
    var r := PauseRegsHw(h, d, txPause);
    PauseRegsEffect(h, d, txPause);
    SameOutsideShrink(r, h, PauseRegs, PM_PAUSE_QUANTA);
    SameOutsideShrink(r, h, PauseRegs - {PM_PAUSE_QUANTA}, PM_PAUSE_THRESH);
    SameOutsideShrink(r, h, PauseRegs - {PM_PAUSE_QUANTA} - {PM_PAUSE_THRESH}, PPAUONTR);
    SameOutsideShrink(r, h, PauseRegs - {PM_PAUSE_QUANTA} - {PM_PAUSE_THRESH} - {PPAUONTR}, PPAUOFFTR);
    assert PauseRegs - {PM_PAUSE_QUANTA} - {PM_PAUSE_THRESH} - {PPAUONTR} - {PPAUOFFTR} == {};
  }

  // ---------------------------------------------------------------------------
  // enetc4_pl_mac_link_up, enetc4_pl_mac_link_down (lines 544-604)
  // ---------------------------------------------------------------------------

  /** What the port brings to a link change: its header, capabilities and offload state. */
  datatype PortCtx = PortCtx(defs: LinkDefs, halfDuplexCap: bool, hwQbu: bool,
                             preemptionActive: bool, numRxRings: nat)

  /** The arguments phylink passes to mac_link_up. */
  datatype LinkUpReq = LinkUpReq(inband: bool, iface: PhyMode, speed: int, full: bool,
                                 txPause: bool, rxPause: bool)

  function LinkPause(c: PortCtx, a: LinkUpReq): PauseCfg {
    ResolvePause(a.full, c.preemptionActive, a.txPause, a.rxPause)
  }

  /** The RGMII step for an RGMII mode without in-band status, the RMII step for RMII. */
  function SubModeHw(h: Hw, d: LinkDefs, a: LinkUpReq): Hw {
    var hr := if !a.inband && IsRgmii(a.iface) then RgmiiHw(h, d, a.speed, a.full) else h;
    if a.iface == Rmii then RmiiHw(hr, d, a.speed, a.full) else hr
  }

  /** Flow control, TX PAUSE, RX PAUSE and the MAC enable, in that order. */
  function FlowStagesHw(h: Hw, c: PortCtx, a: LinkUpReq): Hw {
    var p := LinkPause(c, a);
    var h3 := HdFlowControlHw(h, c.defs, c.halfDuplexCap, p.hdFc);
    var h4 := TxPauseHw(h3, c.defs, c.numRxRings, p.tx);
    var h5 := RxPauseHw(h4, c.defs, p.rx);
    EnableMacHw(h5, c.defs, true)
  }

  /** Four states linked by the flow stages, for the resolved pause setting `p`, end in FlowStagesHw. */
  lemma FlowStagesSteps(h2: Hw, h3: Hw, h4: Hw, h5: Hw, h6: Hw, c: PortCtx, a: LinkUpReq, p: PauseCfg)
    requires p == LinkPause(c, a)
    requires h3 == HdFlowControlHw(h2, c.defs, c.halfDuplexCap, p.hdFc)
    requires h4 == TxPauseHw(h3, c.defs, c.numRxRings, p.tx)
    requires h5 == RxPauseHw(h4, c.defs, p.rx)
    requires h6 == EnableMacHw(h5, c.defs, true)
    ensures h6 == FlowStagesHw(h2, c, a)
  {
  }

  /** The hardware half of enetc4_pl_mac_link_up; `cached` is priv->speed before the call. */
  function LinkUpHw(h: Hw, cached: int, c: PortCtx, a: LinkUpReq): Hw {
    var h6 := FlowStagesHw(SubModeHw(PortSpeedHw(h, c.defs, cached, a.speed), c.defs, a), c, a);
    if c.hwQbu then h6.Log(MmLinkState(true)) else h6
  }

  /** The hardware half of enetc4_pl_mac_link_down. */
  function LinkDownHw(h: Hw, c: PortCtx): Hw {
    var h1 := if c.hwQbu then h.Log(MmLinkState(false)) else h;
    EnableMacHw(h1, c.defs, false)
  }

  /**
   * Link-down notifies the preemption layer (when the port has it) and then
   * clears TX_EN and RX_EN; no other bit of any register changes.
   */
  lemma LinkDownEffect(h: Hw, c: PortCtx)
    ensures LinkDownHw(h, c).Rd(PM_CMD_CFG) * (c.defs.txEn + c.defs.rxEn) == {}
    ensures LinkDownHw(h, c).Rd(PM_CMD_CFG) - (c.defs.txEn + c.defs.rxEn)
            == h.Rd(PM_CMD_CFG) - (c.defs.txEn + c.defs.rxEn)
    ensures SameOutside(LinkDownHw(h, c), h, {PM_CMD_CFG})
    ensures LinkDownHw(h, c).trace
            == h.trace + (if c.hwQbu then [MmLinkState(false)] else [])
               + [RegWrite(PM_CMD_CFG, LinkDownHw(h, c).Rd(PM_CMD_CFG))]
  {
    var h1 := if c.hwQbu then h.Log(MmLinkState(false)) else h;
    assert h1.regs == h.regs;
    EnableMacEffect(h1, c.defs, false);
    SameOutsideRegs(LinkDownHw(h, c), h1, h, {PM_CMD_CFG});
  }

  // ---------------------------------------------------------------------------
  // Link-up settles the MAC
  // ---------------------------------------------------------------------------

  /** The PM_IF_MODE condition the sub-mode step establishes. */
  ghost predicate IfModeSettled(v: Word, d: LinkDefs, a: LinkUpReq) {
    && (!a.inband && IsRgmii(a.iface) ==> RgmiiValue(v, d, a.speed, a.full) == v)
    && (a.iface == Rmii ==> RmiiValue(v, d, a.speed, a.full) == v)
  }

  /** The PM_CMD_CFG flags a link-up leaves. */
  ghost predicate CmdCfgSettled(v: Word, c: PortCtx, a: LinkUpReq) {
    var p := LinkPause(c, a);
    && (c.halfDuplexCap ==> v * c.defs.hdFcEn == (if p.hdFc then c.defs.hdFcEn else {}))
    && v * c.defs.pauseIgn == (if p.rx then {} else c.defs.pauseIgn)
    && v * (c.defs.txEn + c.defs.rxEn) == c.defs.txEn + c.defs.rxEn
  }

  /** The register state a completed link-up leaves. */
  ghost predicate LinkUpSettled(h: Hw, c: PortCtx, a: LinkUpReq) {
    && IfModeSettled(h.Rd(PM_IF_MODE), c.defs, a)
    && CmdCfgSettled(h.Rd(PM_CMD_CFG), c, a)
    && RingsAt(h, c.defs.rbmrCm, c.numRxRings, LinkPause(c, a).tx)
    && PauseRegsAt(h, c.defs, LinkPause(c, a).tx)
  }

  lemma SubModeSettles(h: Hw, d: LinkDefs, a: LinkUpReq)
    requires d.IfModeValid()
    ensures IfModeSettled(SubModeHw(h, d, a).Rd(PM_IF_MODE), d, a)
    ensures SameOutside(SubModeHw(h, d, a), h, {PM_IF_MODE})
  {
    var v := h.Rd(PM_IF_MODE);
    if !a.inband && IsRgmii(a.iface) {
      RgmiiFields(v, d, a.speed, a.full);
    }
    if a.iface == Rmii {
      RmiiFields(v, d, a.speed, a.full);
    }
  }

  /** PM_CMD_CFG after the three flow stages that write it. */
  function CmdCfgChain(v: Word, c: PortCtx, a: LinkUpReq): Word {
    var p := LinkPause(c, a);
    var v3 := if c.halfDuplexCap then ReplaceFlag(v, c.defs.hdFcEn, p.hdFc) else v;
    ReplaceFlag(ReplaceFlag(v3, c.defs.pauseIgn, !p.rx), c.defs.txEn + c.defs.rxEn, true)
  }

  /** The flags written by the earlier stages survive the later ones. */
  lemma CmdCfgChainSettled(v: Word, c: PortCtx, a: LinkUpReq)
    requires c.defs.CmdCfgValid()
    ensures CmdCfgSettled(CmdCfgChain(v, c, a), c, a)
  {
    var d := c.defs;
    var p := LinkPause(c, a);
    var v3 := if c.halfDuplexCap then ReplaceFlag(v, d.hdFcEn, p.hdFc) else v;
    var v5 := ReplaceFlag(v3, d.pauseIgn, !p.rx);
    ReplaceFlagKeepsDisjoint(v3, d.pauseIgn, !p.rx, d.hdFcEn);
    ReplaceFlagKeepsDisjoint(v5, d.txEn + d.rxEn, true, d.hdFcEn);
    ReplaceFlagKeepsDisjoint(v5, d.txEn + d.rxEn, true, d.pauseIgn);
  }

  /** What the flow stages do to PM_CMD_CFG. */
  lemma FlowStagesCmdCfg(h: Hw, c: PortCtx, a: LinkUpReq)
    ensures FlowStagesHw(h, c, a).Rd(PM_CMD_CFG) == CmdCfgChain(h.Rd(PM_CMD_CFG), c, a)
  {
    var d := c.defs;
    var p := LinkPause(c, a);
    var h3 := HdFlowControlHw(h, d, c.halfDuplexCap, p.hdFc);
    var h4 := TxPauseHw(h3, d, c.numRxRings, p.tx);
    CmdCfgHelpersEffect(h, d, c.halfDuplexCap, p.hdFc, p.rx);
    TxPauseEffect(h3, d, c.numRxRings, p.tx);
    assert PM_CMD_CFG !in RingRegs(c.numRxRings) + PauseRegs;
    assert h4.Rd(PM_CMD_CFG) == h3.Rd(PM_CMD_CFG);
  }

  /** The flow stages write PM_CMD_CFG, the rings' RBMR and the PAUSE registers, and nothing else. */
  lemma FlowStagesFrame(h: Hw, c: PortCtx, a: LinkUpReq)
    ensures SameOutside(FlowStagesHw(h, c, a), h, {PM_CMD_CFG} + (RingRegs(c.numRxRings) + PauseRegs))
  {
    var d := c.defs;
    var p := LinkPause(c, a);
    var t := RingRegs(c.numRxRings) + PauseRegs;
    var h3 := HdFlowControlHw(h, d, c.halfDuplexCap, p.hdFc);
    var h4 := TxPauseHw(h3, d, c.numRxRings, p.tx);
    var h5 := RxPauseHw(h4, d, p.rx);
    CmdCfgHelpersEffect(h, d, c.halfDuplexCap, p.hdFc, p.rx);
    TxPauseEffect(h3, d, c.numRxRings, p.tx);
    CmdCfgHelpersEffect(h4, d, c.halfDuplexCap, p.hdFc, p.rx);
    EnableMacEffect(h5, d, true);
    SameOutsideTrans(h4, h3, h, t, {PM_CMD_CFG});
    SameOutsideTrans(h5, h4, h, {PM_CMD_CFG}, t + {PM_CMD_CFG});
    SameOutsideTrans(EnableMacHw(h5, d, true), h5, h, {PM_CMD_CFG}, {PM_CMD_CFG} + (t + {PM_CMD_CFG}));
    assert {PM_CMD_CFG} + ({PM_CMD_CFG} + (t + {PM_CMD_CFG})) == {PM_CMD_CFG} + t;
  }

  /** The ring bits and the PAUSE registers written by the TX PAUSE stage survive the later ones. */
  lemma FlowStagesPause(h: Hw, c: PortCtx, a: LinkUpReq)
    ensures RingsAt(FlowStagesHw(h, c, a), c.defs.rbmrCm, c.numRxRings, LinkPause(c, a).tx)
    ensures PauseRegsAt(FlowStagesHw(h, c, a), c.defs, LinkPause(c, a).tx)
  {
    var d := c.defs;
    var p := LinkPause(c, a);
    var h3 := HdFlowControlHw(h, d, c.halfDuplexCap, p.hdFc);
    var h4 := TxPauseHw(h3, d, c.numRxRings, p.tx);
    var h5 := RxPauseHw(h4, d, p.rx);
    var h6 := EnableMacHw(h5, d, true);
    TxPauseEffect(h3, d, c.numRxRings, p.tx);
    CmdCfgHelpersEffect(h4, d, c.halfDuplexCap, p.hdFc, p.rx);
    EnableMacEffect(h5, d, true);
    SameOutsideTrans(h6, h5, h4, {PM_CMD_CFG}, {PM_CMD_CFG});
    assert NoRingReg({PM_CMD_CFG} + {PM_CMD_CFG});
    RingsAtFrame(h6, h4, d.rbmrCm, c.numRxRings, p.tx, {PM_CMD_CFG} + {PM_CMD_CFG});
    assert h6.Rd(PM_PAUSE_QUANTA) == h4.Rd(PM_PAUSE_QUANTA);
    assert h6.Rd(PM_PAUSE_THRESH) == h4.Rd(PM_PAUSE_THRESH);
    assert h6.Rd(PPAUONTR) == h4.Rd(PPAUONTR);
    assert h6.Rd(PPAUOFFTR) == h4.Rd(PPAUOFFTR);
  }

  /** The flow stages settle PM_CMD_CFG, the rings and the PAUSE registers, and keep PM_IF_MODE. */
  lemma FlowStagesSettle(h: Hw, c: PortCtx, a: LinkUpReq)
    requires c.defs.CmdCfgValid() && IfModeSettled(h.Rd(PM_IF_MODE), c.defs, a)
    ensures LinkUpSettled(FlowStagesHw(h, c, a), c, a)
  {
    var h6 := FlowStagesHw(h, c, a);
    FlowStagesCmdCfg(h, c, a);
    CmdCfgChainSettled(h.Rd(PM_CMD_CFG), c, a);
    FlowStagesPause(h, c, a);
    FlowStagesFrame(h, c, a);
    assert PM_IF_MODE !in {PM_CMD_CFG} + (RingRegs(c.numRxRings) + PauseRegs);
    assert h6.Rd(PM_IF_MODE) == h.Rd(PM_IF_MODE);
  }

  /** A link-up leaves the port in the settled state for the same request. */
  lemma LinkUpSettles(h: Hw, cached: int, c: PortCtx, a: LinkUpReq)
    requires c.defs.Valid()
    ensures LinkUpSettled(LinkUpHw(h, cached, c, a), c, a)
  {
    var d := c.defs;
    var h1 := PortSpeedHw(h, d, cached, a.speed);
    var h2 := SubModeHw(h1, d, a);
    var h6 := FlowStagesHw(h2, c, a);
    SubModeSettles(h1, d, a);
    FlowStagesSettle(h2, c, a);
    assert LinkUpHw(h, cached, c, a).regs == h6.regs;
  }

  /** From the settled state the flow stages change no register and issue only the unconditional writes. */
  lemma SettledFlowStages(h: Hw, c: PortCtx, a: LinkUpReq)
    requires LinkUpSettled(h, c, a)
    ensures SameOutside(FlowStagesHw(h, c, a), h, {})
    ensures FlowStagesHw(h, c, a).trace
            == h.trace + PauseWrites(c.defs, LinkPause(c, a).tx) + [RegWrite(PM_CMD_CFG, h.Rd(PM_CMD_CFG))]
  {
    var d := c.defs;
    var p := LinkPause(c, a);
    var cmd := h.Rd(PM_CMD_CFG);
    if c.halfDuplexCap {
      ReplaceFlagUnchanged(cmd, d.hdFcEn, p.hdFc);
    }
    assert HdFlowControlHw(h, d, c.halfDuplexCap, p.hdFc) == h;
    var h4 := TxPauseHw(h, d, c.numRxRings, p.tx);
    TxPauseSettled(h, d, c.numRxRings, p.tx);
    assert h4.Rd(PM_CMD_CFG) == cmd;
    ReplaceFlagUnchanged(cmd, d.pauseIgn, !p.rx);
    assert RxPauseHw(h4, d, p.rx) == h4;
    ReplaceFlagUnchanged(cmd, d.txEn + d.rxEn, true);
    EnableMacEffect(h4, d, true);
    SameOutsideShrink(EnableMacHw(h4, d, true), h4, {PM_CMD_CFG}, PM_CMD_CFG);
    SameOutsideTrans(EnableMacHw(h4, d, true), h4, h, {PM_CMD_CFG} - {PM_CMD_CFG}, {});
  }

  /** From the settled state with the cached speed equal to the request, only the flow stages and the notification act. */
  lemma SettledLinkUpShape(h: Hw, c: PortCtx, a: LinkUpReq)
    requires IfModeSettled(h.Rd(PM_IF_MODE), c.defs, a)
    ensures LinkUpHw(h, a.speed, c, a)
            == (if c.hwQbu then FlowStagesHw(h, c, a).Log(MmLinkState(true)) else FlowStagesHw(h, c, a))
  {
    assert PortSpeedHw(h, c.defs, a.speed, a.speed) == h;
    assert SubModeHw(h, c.defs, a) == h;
  }

  /**
   * From the settled state with the cached speed equal to the request, a
   * link-up changes no register: every conditional write is skipped, and only
   * the four PAUSE writes, the MAC enable write and the notification remain.
   */
  lemma SettledLinkUpNoChange(h: Hw, c: PortCtx, a: LinkUpReq)
    requires LinkUpSettled(h, c, a)
    ensures SameOutside(LinkUpHw(h, a.speed, c, a), h, {})
    ensures LinkUpHw(h, a.speed, c, a).trace
            == h.trace + PauseWrites(c.defs, LinkPause(c, a).tx) + [RegWrite(PM_CMD_CFG, h.Rd(PM_CMD_CFG))]
               + (if c.hwQbu then [MmLinkState(true)] else [])
  {
    var h6 := FlowStagesHw(h, c, a);
    SettledLinkUpShape(h, c, a);
    SettledFlowStages(h, c, a);
    var r := LinkUpHw(h, a.speed, c, a);
    SameOutsideRegs(r, h6, h6, {});
    SameOutsideTrans(r, h6, h, {}, {});
  }

  /**
   * Link-up applied twice with the same request: the second call changes no
   * register, and adds only the four PAUSE writes, the MAC enable write and
   * the preemption notification to the trace.
   */
  lemma LinkUpIdempotent(h: Hw, cached: int, c: PortCtx, a: LinkUpReq)
    requires c.defs.Valid()
    ensures var h1 := LinkUpHw(h, cached, c, a);
            && SameOutside(LinkUpHw(h1, a.speed, c, a), h1, {})
            && LinkUpHw(h1, a.speed, c, a).trace
               == h1.trace + PauseWrites(c.defs, LinkPause(c, a).tx) + [RegWrite(PM_CMD_CFG, h1.Rd(PM_CMD_CFG))]
                  + (if c.hwQbu then [MmLinkState(true)] else [])
  {
    LinkUpSettles(h, cached, c, a);
    SettledLinkUpNoChange(LinkUpHw(h, cached, c, a), c, a);
  }
}
