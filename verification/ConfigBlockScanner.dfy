/** config_scanner/config_block_scanner.vhd: reads every configuration block in turn and
    sends what it reads over the UDP arbiter. */
module ConfigBlockScanner {
  import opened Words

  const MAX_TIMER: nat := 15
  const UDP_PORT_CONFIG: Half := 0x4268
  const LAST_BLOCK: nat := 127

  datatype ScState = HwReset | Idle | TxReqWait | StartBlock | WaitBlock | ReadBlock | NextBlock | TxPause

  /** Registers of `state_machine`. */
  datatype Scan = Scan(state: ScState, addr: nat, scanAll: bool, timer: nat, pause: nat,
                       req: bool, txBusy: bool, data: Word, valid: bool,
                       cfgOut: Word, cfgValid: bool, finished: bool, busy: bool)

  /** What `state_machine` sees: the registered configuration reply and the control inputs. */
  datatype ScIn = ScIn(cfgIn: Word, cfgValidIn: bool, ready: bool,
                       startAll: bool, startSingle: bool, startAddr: nat)

  const RESET_STATE: Scan := Scan(HwReset, 0, false, 0, 0, false, false, 0, false, 0, false, false, false)

  /** The request to read all registers of block `addr`. */
  function ReadAll(addr: nat): Word { ((0x80 + addr % 0x80) * 0x100 + 0xFF) * 0x1_0000 }

  function Step(s: Scan, i: ScIn): Scan {
    var d := s.(cfgOut := 0, cfgValid := false, finished := false, busy := true, req := false, data := 0, valid := false);
    match s.state
    case HwReset => d.(state := Idle, busy := false)
    case Idle =>
      if i.startAll then d.(state := TxReqWait, addr := 0, scanAll := true, timer := 0, txBusy := false)
      else if i.startSingle then d.(state := TxReqWait, addr := i.startAddr, scanAll := false, timer := 0, txBusy := false)
      else d.(busy := false, timer := 0, txBusy := false)
    case TxReqWait =>
      if i.ready then d.(state := StartBlock, req := true, txBusy := true) else d.(req := true)
    case StartBlock => d.(state := WaitBlock, cfgOut := ReadAll(s.addr), cfgValid := true, timer := 0)
    case WaitBlock =>
      d.(state := if i.cfgValidIn then ReadBlock else if s.timer >= MAX_TIMER then NextBlock else WaitBlock,
         timer := s.timer + 1, data := i.cfgIn, valid := i.cfgValidIn)
    case ReadBlock =>
      d.(state := if i.cfgValidIn then ReadBlock else NextBlock, data := i.cfgIn, valid := i.cfgValidIn)
    case NextBlock =>
      if s.addr == LAST_BLOCK || !s.scanAll then d.(state := Idle, finished := true)
      else d.(state := TxPause, addr := s.addr + 1, txBusy := false, pause := 0)
    case TxPause =>
      if s.pause >= 8 then d.(state := TxReqWait) else d.(pause := s.pause + 1)
  }

  /** The clocked entity, with its input and output registers. */
  class Scanner {
    var regs: Scan
    var cfgIn: Word
    var cfgValidIn: bool
    var cfgDataOut: Word
    var cfgValidOut: bool

    constructor ()
      ensures regs == RESET_STATE && !cfgValidIn && !cfgValidOut
    {
      regs, cfgIn, cfgValidIn, cfgDataOut, cfgValidOut := RESET_STATE, 0, false, 0, false;
    }

    method Tick(data: Word, valid: bool, ready: bool, startAll: bool, startSingle: bool, startAddr: nat)
      modifies this
      ensures regs == Step(old(regs), ScIn(old(cfgIn), old(cfgValidIn), ready, startAll, startSingle, startAddr))
      ensures cfgIn == data && cfgValidIn == valid
      ensures cfgDataOut == old(regs).cfgOut && cfgValidOut == old(regs).cfgValid
    {
      cfgDataOut, cfgValidOut := regs.cfgOut, regs.cfgValid;
      TickMachine(ScIn(cfgIn, cfgValidIn, ready, startAll, startSingle, startAddr));
      cfgIn, cfgValidIn := data, valid;
    }

    method TickMachine(i: ScIn)
      modifies this`regs
      ensures regs == Step(old(regs), i)
    {
      var s := regs;
      // defaults, then what the state asks for; variables are read back from n
      var n := s.(cfgOut := 0, cfgValid := false, finished := false, busy := true, req := false, data := 0, valid := false);
      match s.state {
        case HwReset =>
          n := n.(state := Idle, busy := false);
        case Idle =>
          n := n.(timer := 0, txBusy := false);
          if i.startAll {
            n := n.(state := TxReqWait, addr := 0, scanAll := true);
          } else if i.startSingle {
            n := n.(state := TxReqWait, addr := i.startAddr, scanAll := false);
          } else {
            n := n.(busy := false);
          }
        case TxReqWait =>
          n := n.(req := true);
          if i.ready {
            n := n.(state := StartBlock, txBusy := true);
          }
        case StartBlock =>
          n := n.(cfgOut := ReadAll(s.addr), cfgValid := true, timer := 0, state := WaitBlock);
        case WaitBlock =>
          if i.cfgValidIn {
            n := n.(state := ReadBlock);
          } else if n.timer >= MAX_TIMER {
            n := n.(state := NextBlock);
          }
          n := n.(timer := n.timer + 1, data := i.cfgIn, valid := i.cfgValidIn);
        case ReadBlock =>
          if !i.cfgValidIn {
            n := n.(state := NextBlock);
          }
          n := n.(data := i.cfgIn, valid := i.cfgValidIn);
        case NextBlock =>
          if s.addr == LAST_BLOCK || !n.scanAll {
            n := n.(state := Idle, finished := true);
          } else {
            n := n.(addr := s.addr + 1, state := TxPause, txBusy := false, pause := 0);
          }
        case TxPause =>
          if n.pause >= 8 {
            n := n.(state := TxReqWait);
          } else {
            n := n.(pause := n.pause + 1);
          }
      }
      regs := n;
    }
  }
}
