# ENETC v4 physical function: address filtering, link configuration and SI setup

This project models the core of the NXP ENETC v4 Ethernet physical-function
(PF) driver, `enetc4_pf.c`, and proves properties about it. It is written in
Dafny. Three parts are covered:

- **Receive address filtering** (`enetc4_pf_set_rx_mode`). The driver picks
  unicast and multicast promiscuity from the interface flags. It rebuilds the
  software hash filters, then chooses between the exact-match MAC filter table
  (MAFT) and the 64-bit hash filters. Next it deletes the table entries of the
  previous call, then programs the table or the hash registers. Last it writes
  the promiscuous bits.
- **MAC and link configuration**, as phylink drives it:
  - the interface mode (`enetc4_mac_config`);
  - on link-up: the port speed, the RGMII/RMII sub-mode, and the PAUSE
    resolution (full duplex only, never during frame preemption, otherwise
    half-duplex back pressure);
  - the per-ring congestion bits, the PAUSE quanta and FIFO thresholds, and
    the MAC enables;
  - link-down.
- **Station interface (SI) setup and small hardware operations**:
  - the split of the BD rings and of the MSI-X vectors between the PF (SI 0)
    and the virtual SIs (VSIs);
  - the per-traffic-class maximum SDU;
  - the port-based VLAN word;
  - the little-endian packing of an SI's primary MAC address.

The files:

- `registers.dfy` (module `Registers`): the shared vocabulary.
  - A 32-bit register value is the set of its 1-bit positions, so `&`, `|` and
    `& ~` become `*`, `+` and `-`.
  - `u32_replace_bits` is `ReplaceBits` / `ReplaceFlag`.
  - The port is `Hw(regs, trace)`: a register file, plus the ordered trace of
    register writes, MAFT commands and MAC Merge link notifications.
- `filter.dfy` (module `AddressFilter`): `PlanRxMode` is the decision.
  `RxModeHw` is the hardware side. Lemmas cover the trace, the hash
  registers and the promiscuous register.
- `link.dfy` (module `LinkConfig`): one function per step, and a link-up that
  settles (a second identical link-up changes no register).
- `setup.dfy` (module `PortSetup`): ring and vector arithmetic, the MSDU, VLAN
  and primary-MAC encoders.
- `port.dfy` (module `Enetc4Pf`): class `Port`.
  - It holds the registers, the trace, and the driver's software state:
    `priv->speed`, `si->num_mac_fe`, the two software filters,
    `priv->num_rx_rings` and the preemption flag.
  - Each driver function is a method of `Port`, with the same branches and
    loops. Its `ensures` ties the new state to the step function above.

Register field positions and header constants are not part of this model.
They are parameters: `LinkDefs`, `SetupDefs` and `PromiscDefs`, whose masks
and values are given already shifted into place. Some lemmas need the
header's guarantees that fields do not overlap; those state them as
`requires`. The address-hash function `enetc_mac_addr_hash_idx` is an
uninterpreted parameter `hash: MacAddr -> HashIdx`.

## Model

| member | source | states |
|---|---|---|
| AddressFilter.PromiscOf | drivers/net/ethernet/freescale/enetc/enetc4_pf.c:215-220 | unicast is promiscuous iff IFF_PROMISC; multicast iff IFF_PROMISC or IFF_ALLMULTI. So ALLMULTI alone leaves unicast filtered. |
| AddressFilter.FilterOfCount | drivers/net/ethernet/freescale/enetc/enetc4_pf.c:225-233 | after a reset and one add per address, the filter's address count is the number of addresses added |
| AddressFilter.FilterOfBits | drivers/net/ethernet/freescale/enetc/enetc4_pf.c:225-231 | hash bit k is set iff some added address hashes to k, in both directions |
| AddressFilter.GroupAddrsSpec | drivers/net/ethernet/freescale/enetc/enetc4_pf.c:238-243 | the multicast loop keeps exactly the group addresses of the list; it keeps all of them iff every one is a group address |
| AddressFilter.PlanRxMode | drivers/net/ethernet/freescale/enetc/enetc4_pf.c:215-249 | promiscuity as PromiscOf. The software filters are reset, and rebuilt only for a non-promiscuous class. num_macs counts the unicast addresses and the multicast group addresses of the non-promiscuous classes. Exact match is chosen iff 0 < num_macs <= mac_filter_num. |
| AddressFilter.ExactEntriesCount | drivers/net/ethernet/freescale/enetc/enetc4_pf.c:257-279 | when every multicast-list address is a group address, the entries added are exactly num_macs, the count recorded for the next call |
| AddressFilter.NonGroupMulticastOverfills | drivers/net/ethernet/freescale/enetc/enetc4_pf.c:236-281 | in exact mode, when multicast is filtered and the list holds a non-group address, more entries are added than num_macs records: the call adds an entry at index num_macs, while num_mac_fe becomes num_macs and the next call deletes only entries 0 .. num_macs-1, so that entry outlives the next call |
| AddressFilter.DeletesMatchAdds | drivers/net/ethernet/freescale/enetc/enetc4_pf.c:236-281 | the next call never deletes more entries than this call added, and deletes exactly as many iff the mode is hash, multicast is promiscuous or every multicast-list address is a group address |
| AddressFilter.HashSplitRoundTrip | drivers/net/ethernet/freescale/enetc/enetc4_pf.c:708-718 | the low and high 32-bit words written to the two hash registers together hold the whole 64-bit table |
| AddressFilter.SetSiMacFilter | drivers/net/ethernet/freescale/enetc/enetc4_pf.c:708-718 | the class's register 0 gets the low word and register 1 the high word, in that order; no other register changes |
| AddressFilter.SetSiMacPromisc | drivers/net/ethernet/freescale/enetc/enetc4_pf.c:689-706 | PSIPMMR gets the SI's UP or MP bit set or cleared as `en` says, with every other bit kept; one unconditional write; no other register changes |
| AddressFilter.ProgramFiltersTrace | drivers/net/ethernet/freescale/enetc/enetc4_pf.c:257-295 | the hash registers are written (unicast low/high, then multicast low/high), then the table entries are added. Exact mode adds the non-promiscuous classes' addresses from index 0, unicast first, each for SI 0. Hash mode adds nothing. |
| AddressFilter.ProgramFiltersRegs | drivers/net/ethernet/freescale/enetc/enetc4_pf.c:257-295 | in exact mode both hash filters end at 0. In hash mode each filter holds its class's software table, or 0 for a promiscuous class. Nothing outside the four hash registers changes. |
| AddressFilter.ProgramPromiscEffect | drivers/net/ethernet/freescale/enetc/enetc4_pf.c:297-298 | two PSIPMMR writes, the unicast bit and then the multicast bit of SI 0; nothing else changes |
| AddressFilter.RxModeTrace | drivers/net/ethernet/freescale/enetc/enetc4_pf.c:254-298 | everything is sent in this order: the deletes of entries 0 .. num_mac_fe-1 of the previous call, the four hash-register writes, the adds, then the two promiscuous writes |
| AddressFilter.RxModeHashRegisters | drivers/net/ethernet/freescale/enetc/enetc4_pf.c:257-295 | after the call both hash filters are 0 in exact mode; in hash mode each is the class's table or 0 |
| AddressFilter.RxModeOtherRegisters | drivers/net/ethernet/freescale/enetc/enetc4_pf.c:195-299 | the call always writes the promiscuous bits of both classes; it changes no register outside PSIPMMR and the four hash registers |
| AddressFilter.PromiscFinalIdempotent | drivers/net/ethernet/freescale/enetc/enetc4_pf.c:297-298 | setting both promiscuous bits again with the same flags leaves PSIPMMR as it was |
| AddressFilter.RxModeKeys | drivers/net/ethernet/freescale/enetc/enetc4_pf.c:254-298 | a call leaves written exactly the registers written before plus PSIPMMR and the four hash registers |
| AddressFilter.RxModeRepeatReads | drivers/net/ethernet/freescale/enetc/enetc4_pf.c:195-299 | a second call with the same flags and lists, after the first, leaves every register reading as the first call left it |
| AddressFilter.RxModeRegsIdempotent | drivers/net/ethernet/freescale/enetc/enetc4_pf.c:195-299 | a second call with the same flags and lists, after the first, leaves the register file exactly as the first call left it |
| AddressFilter.RxModeRepeatTrace | drivers/net/ethernet/freescale/enetc/enetc4_pf.c:254-298 | the second call deletes the num_mac_fe entries the first recorded, then issues the same four hash writes and the same adds as the first, and its last PSIPMMR write carries the value the register already holds |
| AddressFilter.PromiscFinalBits | drivers/net/ethernet/freescale/enetc/enetc4_pf.c:297-298 | if the UP and MP bits are distinct, PSIPMMR ends with UP set iff unicast is promiscuous and MP set iff multicast is; every other bit is kept |
| LinkConfig.MacConfigFields | drivers/net/ethernet/freescale/enetc/enetc4_pf.c:325-358 | an unsupported mode is refused exactly when it has no IFMODE value. Otherwise IFMODE gets the mode's value, ENA is set iff the mode is RGMII with in-band status, and no other bit changes. |
| LinkConfig.MacConfigHw | drivers/net/ethernet/freescale/enetc/enetc4_pf.c:318-359 | an unsupported mode leaves the port unchanged (no write). A supported one gets exactly one write of PM_IF_MODE with MacConfigValue, and no other register changes. |
| LinkConfig.SameSpeedIsEquality | drivers/net/ethernet/freescale/enetc/enetc4_pf.c:380-384 | comparing an int speed with the u32 cached speed is plain equality for values that fit an int |
| LinkConfig.EncodedSpeed | drivers/net/ethernet/freescale/enetc/enetc4_pf.c:389-399 | the five known speeds are encoded as themselves; any other speed is encoded as SPEED_10 |
| LinkConfig.SpeedValue | drivers/net/ethernet/freescale/enetc/enetc4_pf.c:386-399 | PSPEED holds the encoded speed and every other PCR bit is kept |
| LinkConfig.PortSpeedEffect | drivers/net/ethernet/freescale/enetc/enetc4_pf.c:378-403 | nothing is written when the speed equals the cached one. Otherwise there is exactly one PCR write, which changes only PSPEED. |
| LinkConfig.RgmiiFields | drivers/net/ethernet/freescale/enetc/enetc4_pf.c:405-431 | ENA, M10 and REVMII are cleared. SSP gets the 1G/100M/10M code, or is kept for other speeds. HD is set iff half duplex. Every other bit is kept, and applying the step twice equals applying it once. |
| LinkConfig.RmiiFields | drivers/net/ethernet/freescale/enetc/enetc4_pf.c:433-456 | ENA and SSP are cleared. M10 is cleared for 100M, set for 10M and kept otherwise. HD is set iff half duplex. Every other bit is kept, and the step is idempotent. |
| LinkConfig.ResolvePause | drivers/net/ethernet/freescale/enetc/enetc4_pf.c:564-579 | full duplex keeps rx_pause and keeps tx_pause unless preemption is active; half duplex clears both and turns on flow control iff either was requested |
| LinkConfig.PauseOnlyFullDuplex | drivers/net/ethernet/freescale/enetc/enetc4_pf.c:564-579 | PAUSE is sent only in full duplex without preemption, and honoured only in full duplex. Half-duplex flow control only ever runs in half duplex. Some flow control is active iff one was requested and not vetoed. |
| LinkConfig.CmdCfgHelpersEffect | drivers/net/ethernet/freescale/enetc/enetc4_pf.c:458-485 | HD_FCEN is set iff enabled, and only when the port has the capability (otherwise nothing happens). PAUSE_IGN is the negation of rx_pause. Each helper changes only its own bit, and only PM_CMD_CFG. |
| LinkConfig.EnableMacEffect | drivers/net/ethernet/freescale/enetc/enetc4_pf.c:532-542 | TX_EN and RX_EN are both set or both cleared, every other bit is kept, and exactly one write is made |
| LinkConfig.RingsCmEffect | drivers/net/ethernet/freescale/enetc/enetc4_pf.c:495-502 | every ring 0 .. n-1 ends with CM equal to tx_pause and its other bits kept; no other register changes |
| LinkConfig.RingsCmSettled | drivers/net/ethernet/freescale/enetc/enetc4_pf.c:495-502 | when every ring's CM already matches, the loop writes nothing |
| LinkConfig.PauseValues | drivers/net/ethernet/freescale/enetc/enetc4_pf.c:504-524 | with tx_pause the values are 0xffff, 0x7fff, 3 and 1 maximum frames; without it they are all 0 |
| LinkConfig.PauseRegsEffect | drivers/net/ethernet/freescale/enetc/enetc4_pf.c:526-529 | four unconditional writes, quanta, threshold, on and off, in order; nothing else changes |
| LinkConfig.TxPauseEffect | drivers/net/ethernet/freescale/enetc/enetc4_pf.c:487-530 | after the call every ring's CM and the four PAUSE registers hold the values for tx_pause; only those registers change |
| LinkConfig.TxPauseSettled | drivers/net/ethernet/freescale/enetc/enetc4_pf.c:487-530 | on an already-configured port no register changes, but the four PAUSE writes are still issued |
| LinkConfig.LinkDownEffect | drivers/net/ethernet/freescale/enetc/enetc4_pf.c:590-604 | the preemption layer is notified (when the port has QBU), then TX_EN and RX_EN are cleared; no other bit of any register changes |
| LinkConfig.SubModeSettles | drivers/net/ethernet/freescale/enetc/enetc4_pf.c:557-562 | after the sub-mode step PM_IF_MODE is settled for the request; nothing else changes |
| LinkConfig.CmdCfgChainSettled | drivers/net/ethernet/freescale/enetc/enetc4_pf.c:581-584 | the flags written by earlier stages survive the later ones |
| LinkConfig.FlowStagesCmdCfg | drivers/net/ethernet/freescale/enetc/enetc4_pf.c:581-584 | PM_CMD_CFG ends as the chain of flow control, PAUSE_IGN and the enables |
| LinkConfig.FlowStagesFrame | drivers/net/ethernet/freescale/enetc/enetc4_pf.c:581-584 | the flow stages change only PM_CMD_CFG, the ring registers and the four PAUSE registers |
| LinkConfig.FlowStagesPause | drivers/net/ethernet/freescale/enetc/enetc4_pf.c:581-583 | the rings and the PAUSE registers end as the resolved tx_pause says |
| LinkConfig.FlowStagesSettle | drivers/net/ethernet/freescale/enetc/enetc4_pf.c:581-584 | the flow stages leave a settled port when PM_IF_MODE already is |
| LinkConfig.LinkUpSettles | drivers/net/ethernet/freescale/enetc/enetc4_pf.c:544-588 | after link-up the port is settled for the request: sub-mode, CMD_CFG flags, ring CM bits and PAUSE registers |
| LinkConfig.SettledFlowStages | drivers/net/ethernet/freescale/enetc/enetc4_pf.c:581-584 | on a settled port the flow stages change no register and issue only the four PAUSE writes and the enable write |
| LinkConfig.SettledLinkUpShape | drivers/net/ethernet/freescale/enetc/enetc4_pf.c:555-562 | with the cached speed equal to the request and PM_IF_MODE settled, link-up is the flow stages alone, plus the QBU notification |
| LinkConfig.SettledLinkUpNoChange | drivers/net/ethernet/freescale/enetc/enetc4_pf.c:544-588 | on a settled port link-up changes no register; it sends exactly the PAUSE writes, the enable write, and the notification when the port has QBU |
| LinkConfig.LinkUpIdempotent | drivers/net/ethernet/freescale/enetc/enetc4_pf.c:544-588 | a second identical link-up changes no register and sends only the PAUSE writes, the enable write and the notification |
| PortSetup.RingSplit | drivers/net/ethernet/freescale/enetc/enetc4_pf.c:105-120 | with at least one ring per VSI: the PF keeps 0..8 rings and each VSI gets at least one, exactly one when fewer than 8 + num_vsi exist. Fewer than num_vsi rings are left unassigned. |
| PortSetup.MsixSplit | drivers/net/ethernet/freescale/enetc/enetc4_pf.c:85-95 | the PF share plus num_vsi VSI shares is exactly num_msix, and the PF gets at least as many vectors as a VSI |
| PortSetup.MsixField | drivers/net/ethernet/freescale/enetc/enetc4_pf.c:87-93 | the register field `(count - 1) & 0x3f` always fits 6 bits |
| PortSetup.MsixFieldExact | drivers/net/ethernet/freescale/enetc/enetc4_pf.c:87-93 | for 1 to 64 vectors the field holds count - 1 |
| PortSetup.MsixFieldUnderflow | drivers/net/ethernet/freescale/enetc/enetc4_pf.c:92-95 | with fewer vectors than SIs a VSI share is 0 and its field wraps to 63 |
| PortSetup.SetSiMsixNumEffect | drivers/net/ethernet/freescale/enetc/enetc4_pf.c:79-96 | PSICFGR2(0) holds the PF field and PSICFGR2(1..num_vsi) the VSI field; no other register changes |
| PortSetup.SiRingsEffect | drivers/net/ethernet/freescale/enetc/enetc4_pf.c:105-127 | PSICFGR0(0) holds the PF's ring counts, and every PSICFGR0(1..num_vsi) the VSI word; no other register changes |
| PortSetup.SiModesEffect | drivers/net/ethernet/freescale/enetc/enetc4_pf.c:129-140 | outer-tag VLAN filtering, VLAN promiscuous bits for all SIs with the rest of PSIPVMR kept, MAC promiscuity off |
| PortSetup.MsduValueFields | drivers/net/ethernet/freescale/enetc/enetc4_pf.c:47-52 | the SDU-type field holds MPDU and the rest holds the size, wrapped to 32 bits |
| PortSetup.SetTcMsduEffect | drivers/net/ethernet/freescale/enetc/enetc4_pf.c:42-55 | PTCTMSDUR(tc) holds class tc's value for each of the 8 classes; nothing else changes |
| PortSetup.ResetIsUnconfiguredSet | drivers/net/ethernet/freescale/enetc/enetc4_pf.c:57-66 | the reset is the same as a set with no maximum SDU for any class |
| PortSetup.BasedVlanFields | drivers/net/ethernet/freescale/enetc/enetc4_pf.c:659-670 | for VLAN 0 the word is 0. Otherwise it holds the enable bit, the VLAN's bits in VID and the priority in PCP, and no other bit, so it is nonzero iff a VLAN is set. |
| PortSetup.MacUpper | drivers/net/ethernet/freescale/enetc/enetc4_pf.c:636 | the upper word's octets, least significant first, are the address's octets 0 to 3 |
| PortSetup.MacLower | drivers/net/ethernet/freescale/enetc/enetc4_pf.c:635 | the lower half-word's low octet is octet 4 of the address and its high octet is octet 5 |
| PortSetup.MacOf | drivers/net/ethernet/freescale/enetc/enetc4_pf.c:655-656 | packing the six unpacked octets again gives back both words: unpacking loses nothing |
| PortSetup.MacPackRoundTrip | drivers/net/ethernet/freescale/enetc/enetc4_pf.c:633-657 | packing an address and unpacking it gives the same address |
| PortSetup.PrimaryMacRoundTrip | drivers/net/ethernet/freescale/enetc/enetc4_pf.c:633-657 | for a VSI, the primary MAC read back after a set is the address set |
| PortSetup.PrimaryMacSi0 | drivers/net/ethernet/freescale/enetc/enetc4_pf.c:638-653 | for SI 0 the set writes PMAR0/PMAR1 while the get reads PSIPMAR0/1(0), so the set does not change what the get returns |
| Enetc4Pf.Port.SetSiMacFilter | drivers/net/ethernet/freescale/enetc/enetc4_pf.c:708-718 | the registers and trace become AddressFilter.SetSiMacFilter of the old ones; the software state is unchanged |
| Enetc4Pf.Port.SetSiMacPromisc | drivers/net/ethernet/freescale/enetc/enetc4_pf.c:689-706 | the new port state is AddressFilter.SetSiMacPromisc of the old one |
| Enetc4Pf.Port.BuildUcFilter | drivers/net/ethernet/freescale/enetc/enetc4_pf.c:225-233 | the loop yields FilterOf the unicast list (see FilterOfCount, FilterOfBits) |
| Enetc4Pf.Port.BuildMcFilter | drivers/net/ethernet/freescale/enetc/enetc4_pf.c:236-245 | the loop yields FilterOf the group addresses of the multicast list |
| Enetc4Pf.Port.DeleteEntries | drivers/net/ethernet/freescale/enetc/enetc4_pf.c:254-255 | the delete commands for entries 0 .. n-1 are appended in order; registers unchanged |
| Enetc4Pf.Port.AddEntries | drivers/net/ethernet/freescale/enetc/enetc4_pf.c:264-276 | add commands at contiguous indices from `start`, each for SI 0; returns the next index |
| Enetc4Pf.Port.PlanFilters | drivers/net/ethernet/freescale/enetc/enetc4_pf.c:215-249 | the decision equals PlanRxMode; nothing changes |
| Enetc4Pf.Port.ProgramExact | drivers/net/ethernet/freescale/enetc/enetc4_pf.c:257-279 | in exact mode the port becomes ProgramFilters of the old state |
| Enetc4Pf.Port.ProgramHash | drivers/net/ethernet/freescale/enetc/enetc4_pf.c:280-295 | in hash mode the port becomes ProgramFilters of the old state |
| Enetc4Pf.Port.SetRxMode | drivers/net/ethernet/freescale/enetc/enetc4_pf.c:195-299 | the registers and trace become RxModeHw of the old state with the previous num_mac_fe. The software filters become the plan's, and num_mac_fe becomes num_macs in exact mode and 0 in hash mode. |
| Enetc4Pf.Port.MacConfig | drivers/net/ethernet/freescale/enetc/enetc4_pf.c:318-359 | the port becomes MacConfigHw of the old state |
| Enetc4Pf.Port.SetPortSpeed | drivers/net/ethernet/freescale/enetc/enetc4_pf.c:378-403 | the port becomes PortSpeedHw; the cached speed becomes the requested one whenever PCR is written |
| Enetc4Pf.Port.SetRgmiiMac | drivers/net/ethernet/freescale/enetc/enetc4_pf.c:405-431 | PM_IF_MODE is written with RgmiiValue only if that differs from the old value |
| Enetc4Pf.Port.SetRmiiMac | drivers/net/ethernet/freescale/enetc/enetc4_pf.c:433-456 | PM_IF_MODE is written with RmiiValue only if that differs from the old value |
| Enetc4Pf.Port.SetHdFlowControl | drivers/net/ethernet/freescale/enetc/enetc4_pf.c:458-472 | the port becomes HdFlowControlHw: nothing without the capability, otherwise a write only on change |
| Enetc4Pf.Port.SetRxPause | drivers/net/ethernet/freescale/enetc/enetc4_pf.c:474-485 | the port becomes RxPauseHw: PAUSE_IGN is !rx_pause, written only on change |
| Enetc4Pf.Port.SetTxPause | drivers/net/ethernet/freescale/enetc/enetc4_pf.c:487-530 | the port becomes TxPauseHw: the ring loop, then the four PAUSE registers |
| Enetc4Pf.Port.EnableMac | drivers/net/ethernet/freescale/enetc/enetc4_pf.c:532-542 | the port becomes EnableMacHw |
| Enetc4Pf.Port.ApplySubMode | drivers/net/ethernet/freescale/enetc/enetc4_pf.c:557-562 | the RGMII step for RGMII without in-band status and the RMII step for RMII, as SubModeHw |
| Enetc4Pf.Port.ResolveLinkPause | drivers/net/ethernet/freescale/enetc/enetc4_pf.c:564-579 | the flags returned are ResolvePause of the request and the preemption state; nothing changes |
| Enetc4Pf.Port.ApplyPause | drivers/net/ethernet/freescale/enetc/enetc4_pf.c:581-584 | the four flow stages in order, as FlowStagesHw |
| Enetc4Pf.Port.LinkUp | drivers/net/ethernet/freescale/enetc/enetc4_pf.c:544-588 | the port becomes LinkUpHw of the old state and cached speed; the cached speed is updated as in SetPortSpeed |
| Enetc4Pf.Port.LinkDown | drivers/net/ethernet/freescale/enetc/enetc4_pf.c:590-604 | the port becomes LinkDownHw; the software state is unchanged |
| Enetc4Pf.Port.SetSiMsixNum | drivers/net/ethernet/freescale/enetc/enetc4_pf.c:79-96 | the port becomes SetSiMsixNumHw |
| Enetc4Pf.Port.SetSiVlanPromisc | drivers/net/ethernet/freescale/enetc/enetc4_pf.c:680-687 | PSIPVMR gets the VLAN promiscuous bits of every SI, with its other bits kept |
| Enetc4Pf.Port.PortSiConfigure | drivers/net/ethernet/freescale/enetc/enetc4_pf.c:98-141 | the port becomes PortSiConfigureHw; it requires at least one VSI, because the source divides by num_vsi |
| Enetc4Pf.Port.SetTcMsdu | drivers/net/ethernet/freescale/enetc/enetc4_pf.c:42-55 | the port becomes SetTcMsduHw: the 8 per-class writes in order |
| Enetc4Pf.Port.ResetTcMsdu | drivers/net/ethernet/freescale/enetc/enetc4_pf.c:57-66 | the port becomes ResetTcMsduHw |
| Enetc4Pf.Port.SetTrxFrameSize | drivers/net/ethernet/freescale/enetc/enetc4_pf.c:68-76 | PM_MAXFRM is written, then the per-class reset, as SetTrxFrameSizeHw |
| Enetc4Pf.Port.SetSiPrimaryMac | drivers/net/ethernet/freescale/enetc/enetc4_pf.c:633-645 | the port becomes SetSiPrimaryMacHw |
| Enetc4Pf.Port.GetSiPrimaryMac | drivers/net/ethernet/freescale/enetc/enetc4_pf.c:647-657 | the address returned is PortSetup.GetSiPrimaryMac of the registers |
| Enetc4Pf.Port.SetSiBasedVlan | drivers/net/ethernet/freescale/enetc/enetc4_pf.c:659-670 | PSIVLANR(si) is written with BasedVlanValue |

## Left out

- Register access is a map from register to value. MMIO ordering, posted writes and the difference between `enetc_port_wr` and `enetc_port_mac_wr` are not modelled.
- There is no locking or concurrency; each method runs alone.
- The 16-bit `__raw_writew`/`__raw_readw` of PSIPMAR1/PMAR1 is modelled as a full register value that holds the 16 bits.
- Whether the hardware aliases PMAR0/1 to PSIPMAR0/1(0) is not part of this model; the registers are distinct here (PrimaryMacSi0).
- Each MAFT command on the control ring (`ntmp_maft_add_entry`, `ntmp_maft_delete_entry`) is one trace event. The ring protocol and its failures are not modelled; the source ignores the return values too.
- `enetc_mm_link_state_update` is a trace event; the MAC Merge layer is not modelled.
- `enetc_mac_addr_hash_idx` is an uninterpreted parameter, and the register header's bit positions and field values are parameters.
- The `u32_replace_bits(v, 1, mask)` uses are modelled as setting the whole mask (`ReplaceFlag`), which is exact for one-bit fields. The header makes HD, HD_FCEN, PAUSE_IGN and RBMR_CM one bit wide, but no proof needs that fact.
- SetRxMode: the guard on `set_si_mac_filter` and `set_si_mac_promisc` is not modelled, because both are always set in the ops table. The same holds for `set_si_vlan_promisc` in PortSiConfigure.
- NonGroupMulticastOverfills: the exact-match add loop adds every multicast-list address, including non-group ones, as the code does; the consequence is proved rather than corrected.
- SetRxMode: the model follows the code, which deletes and re-adds every exact-match entry on every call. So a repeated call with the same lists leaves the registers as they were (RxModeRegsIdempotent) but issues new MAFT commands and register writes (RxModeRepeatTrace).
- LinkUpIdempotent: a repeated link-up changes no register, but it still issues the four PAUSE register writes and the enable write, because the code writes them unconditionally.
- PortSiConfigure: the software copy `vlan_promisc_simap` is not a field of Port; its value is fixed to all SIs and only its register effect is modelled.
- PortSiConfigure requires at least one VSI, because the source divides by `num_vsi`.
- Probe, remove, suspend, resume, clock enabling, classification-rule allocation and `enetc4_get_port_caps`: these are environment setup and are not modelled. Capabilities are the `Caps` parameter.
- `enetc4_configure_port` runs once at probe. Its own steps are not modelled: the RSS key (random bytes, through `enetc_set_rss_key`, which is not part of this model), the ISIT key rule and the PMR/POR enables. The steps it calls that are modelled are PortSiConfigure and SetTrxFrameSize.
- The ops-table functions anti-spoofing, VLAN hash filter, loopback, TC TSD and time gating are not modelled. They are outside the filtering, link and SI setup covered here.
- `enetc4_pl_mac_config` and `enetc4_pl_mac_select_pcs` are not modelled; they only forward to MacConfig or return a pointer.
- Speeds are unbounded integers. SameSpeed compares them modulo 2^32, as the int/u32 comparison does; SameSpeedIsEquality shows this is plain equality for values that fit an int.
