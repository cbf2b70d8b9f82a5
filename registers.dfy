/**
 * The MAX30003 registers the driver touches, the configuration profile it
 * programs (125 samples per second from the 32000 Hz master clock, gain
 * 20 V/V), and the bit fields it tests in what it reads back.
 */
module Registers {
  import opened Bits

  /** Status register; bit 23 (EINT) says an ECG sample is waiting. */
  const STATUS: Byte := 0x01
  /** Software reset. */
  const SW_RST: Byte := 0x08
  /** Restarts the sampling pipeline. */
  const SYNCH: Byte := 0x09
  /** Info register, read as a probe that the chip answers. */
  const INFO: Byte := 0x0F
  /** General configuration: FMSTR in bits 21..20, EN_ECG in bit 19. */
  const CNFG_GEN: Byte := 0x10
  /** Input multiplexer configuration. */
  const CNFG_EMUX: Byte := 0x14
  /** ECG configuration: RATE in bits 23..22, GAIN in bits 17..16. */
  const CNFG_ECG: Byte := 0x15
  /** The pseudo-address of the ECG FIFO burst read. */
  const ECG_FIFO_BURST: Byte := 0x21

  /** CNFG_GEN as programmed: FMSTR = 01 (32000 Hz), EN_ECG = 1. */
  const CNFG_GEN_PROFILE: UInt32 := 0x18_0000
  /** CNFG_ECG as programmed: RATE = 10 (125 sps with FMSTR = 01), GAIN = 00. */
  const CNFG_ECG_PROFILE: UInt32 := 0x80_0000

  /** How many times initialisation polls STATUS before giving up. */
  const READY_POLLS: nat := 100

  /** A status word signals a waiting sample (`status & (1 << 23)`). */
  predicate Ready(status: nat)
  {
    Bit23(status)
  }

  /** The probe read back all zeros or all ones: nothing drives the bus. */
  predicate ProbeFails(info: nat)
  {
    info == 0x00_0000 || info == 0xFF_FFFF
  }

  /** FMSTR, `(gen >> 20) & 0x03`. */
  function Fmstr(gen: nat): (f: nat)
    ensures f < 4
  {
    (gen / 0x10_0000) % 4
  }

  /** EN_ECG, bit 19 of CNFG_GEN. */
  predicate EcgEnabled(gen: nat)
  {
    (gen / 0x8_0000) % 2 == 1
  }

  /** RATE, `(ecg >> 22) & 0x03`. */
  function Rate(ecg: nat): (r: nat)
    ensures r < 4
  {
    (ecg / 0x40_0000) % 4
  }

  /** GAIN, `(ecg >> 16) & 0x03`; code 0 is 20 V/V. */
  function Gain(ecg: nat): (g: nat)
    ensures g < 4
  {
    (ecg / 0x1_0000) % 4
  }

  /**
   * The verification step's verdict on the read-back registers: the
   * profile is confirmed when FMSTR is 1 and RATE is 2; otherwise only a
   * warning is printed.
   */
  predicate ProfileConfirmed(gen: nat, ecg: nat)
  {
    Fmstr(gen) == 1 && Rate(ecg) == 2
  }

  /**
   * The values written decode, under the verification step's offsets, to
   * FMSTR = 1 with the ECG channel on, RATE = 2 and GAIN = 0 (the gain the
   * millivolt conversion assumes), so reading back exactly what was
   * written confirms the profile.
   */
  lemma ProfileDecodes()
    ensures Fmstr(CNFG_GEN_PROFILE) == 1 && EcgEnabled(CNFG_GEN_PROFILE)
    ensures Rate(CNFG_ECG_PROFILE) == 2 && Gain(CNFG_ECG_PROFILE) == 0
    ensures ProfileConfirmed(CNFG_GEN_PROFILE, CNFG_ECG_PROFILE)
  {
  }
}
