/** interfaces/ethernet_ccdcontrol_interface.vhd: writing, erasing and reading back the seven
    sequencer memories. */
module SequencerInterface {
  import opened Words

  const UDP_PORT_SEQ_SERIAL: Half := 0x1999
  const UDP_PORT_SEQ_PROGRAM: Half := 0x2000
  const UDP_PORT_SEQ_IND_SUB_REP: Half := 0x2006

  // ---------------------------------------------------------------------------
  // The memories
  // ---------------------------------------------------------------------------

  /** Program, time, output, and the four indirection memories. */
  type Memory = m: int | 0 <= m < 7

  function Depth(m: Memory): (n: nat)
    ensures 16 <= n <= 1024
  {
    if m == 0 then 1024 else if m <= 2 then 256 else 16
  }

  /** Two to the width of the readback port. */
  function Limit(m: Memory): nat {
    match m
    case 1 => TWO16
    case 3 => 16
    case 4 => 0x100_0000
    case 5 => 1024
    case 6 => TWO16
    case _ => TWO32
  }

  type Memories = ms: seq<seq<Word>> | MemoriesOk(ms) witness Zeroes()

  predicate MemoriesOk(ms: seq<seq<Word>>) {
    |ms| == 7 && forall m: Memory :: |ms[m]| == Depth(m) && forall a :: 0 <= a < Depth(m) ==> ms[m][a] < Limit(m)
  }

  function Zeroes(): (ms: seq<seq<Word>>)
    ensures MemoriesOk(ms) && forall m: Memory :: forall a :: 0 <= a < Depth(m) ==> ms[m][a] == 0
  {
    seq(7, m requires 0 <= m < 7 => seq(Depth(m), _ => 0))
  }

  /** Locations and widths of the seven memories. */
  lemma MemoryShapes()
    ensures Depth(0) == 1024 && Depth(1) == 256 && Depth(2) == 256
    ensures forall m: Memory :: m >= 3 ==> Depth(m) == 16
    ensures Limit(0) == 0x1_0000_0000 && Limit(1) == 0x1_0000 && Limit(2) == 0x1_0000_0000 && Limit(3) == 0x10
    ensures Limit(4) == 0x100_0000 && Limit(5) == 0x400 && Limit(6) == 0x1_0000
  {
  }

  /** A write to one memory: address and data are cut to what the memory has. */
  datatype Write = Write(mem: Memory, address: nat, value: Word)

  function Put(ms: Memories, w: Write): Memories {
    var m: seq<Word> := ms[w.mem][w.address % Depth(w.mem) := w.value % Limit(w.mem)];
    var r := ms[w.mem := m];
    assert forall k: Memory :: k != w.mem ==> r[k] == ms[k];
    r
  }

  // ---------------------------------------------------------------------------
  // The clocked processes
  // ---------------------------------------------------------------------------

  /** A word of the incoming stream, or none. */
  datatype Input = Input(valid: bool, port: Half, data: Word)

  const NO_INPUT: Input := Input(false, 0, 0)

  /** Registers of `write_multiplexer`; `enable` is the memory whose write enable is up, or -1. */
  datatype Writer = Writer(isAddress: bool, destination: Half, address: nat, data: Word, enable: int, writeMode: bool)

  /** Registers of `erase_data`. */
  datatype Eraser = Eraser(doErase: bool, writeAddress: bool, block: Half, address: nat, maxAddress: nat,
                           data: Word, valid: bool, done: bool)

  /** Is the port one of the sequencer's: the serial one, or bits 13 to 6 equal to 0x80. */
  predicate SequencerPort(p: Half) { p == UDP_PORT_SEQ_SERIAL || p / 64 % 256 == 0x80 }

  /** The memory that a destination names, or -1. */
  function MemoryOf(destination: Half): (m: int)
    ensures -1 <= m < 7
  {
    if UDP_PORT_SEQ_PROGRAM <= destination <= UDP_PORT_SEQ_IND_SUB_REP then destination - UDP_PORT_SEQ_PROGRAM else -1
  }

  /** `data_register`: outside words first, else the eraser's. */
  function RegisterStep(r: Input, i: Input, e: Eraser): Input {
    if i.valid then i
    else if e.valid then Input(true, UDP_PORT_SEQ_SERIAL, e.data)
    else Input(false, 0, r.data)
  }

  function WriterStep(w: Writer, r: Input): Writer {
    if r.valid && SequencerPort(r.port) then
      if w.isAddress then
        w.(enable := -1, writeMode := true, address := r.data % 1024, isAddress := false,
           destination := if r.port == UDP_PORT_SEQ_SERIAL then Hi(r.data) else r.port)
      else w.(enable := MemoryOf(w.destination), writeMode := true, data := r.data, isAddress := true)
    else w.(enable := -1, writeMode := false, isAddress := true)
  }

  /** The address word of a memory location: destination, six zeroes, address. */
  function AddressWord(block: Half, address: nat): Word { Pack(block, address % 1024) }

  function NextMax(block: Half): nat { if block == 0x2001 || block == 0x2002 then 255 else 15 }

  function EraserStep(e: Eraser, erase: bool): Eraser {
    var d := e.(done := false, valid := false);
    if e.doErase then
      if e.writeAddress then d.(valid := true, data := AddressWord(e.block, e.address), writeAddress := false)
      else
        var z := d.(valid := true, data := 0, writeAddress := true);
        if e.address == e.maxAddress then
          if e.block == UDP_PORT_SEQ_IND_SUB_REP then z.(doErase := false, done := true, address := 0)
          else
            var b := (e.block + 1) % TWO16;
            z.(block := b, maxAddress := NextMax(b), address := 0)
        else z.(address := (e.address + 1) % 1024)
    else if erase then d.(doErase := true, writeAddress := true, block := UDP_PORT_SEQ_PROGRAM, maxAddress := 1023, address := 0)
    else d
  }

  /** `read_multiplexer`; the two register reads behind triggers 7 and 8 are not modelled. */
  datatype ReadState = HwReset | Idle | TxReqWait | ReadAddr | ReadData

  datatype Reader = Reader(state: ReadState, mem: Memory, address: nat, maxAddress: nat, addressOut: nat,
                           dataOut: Word, validOut: bool, request: bool, busy: bool, done: bool)

  /** `trigger` is the lowest read trigger that is up, or -1. */
  function ReaderStep(s: Reader, stalled: bool, trigger: int, ready: bool, readback: Word): Reader {
    var d := s.(request := false, busy := false, validOut := false, done := false);
    var n :=
      if stalled then d
      else
        match s.state
        case HwReset => d.(state := Idle)
        case Idle =>
          if 0 <= trigger < 7 then
            d.(state := TxReqWait, request := true, mem := trigger, address := 0, maxAddress := Depth(trigger) - 1)
          else d.(maxAddress := 0)
        case TxReqWait => d.(request := true, state := if ready then ReadAddr else TxReqWait)
        case ReadAddr =>
          d.(dataOut := AddressWord(UDP_PORT_SEQ_PROGRAM + s.mem, s.address), validOut := true, busy := true, state := ReadData)
        case ReadData =>
          var e := d.(dataOut := readback, validOut := true, busy := true);
          if s.address == s.maxAddress then e.(state := Idle, done := true)
          else e.(address := (s.address + 1) % 1024, state := ReadAddr);
    n.(addressOut := n.address)
  }

  /** The clocked entity. */
  class Interface {
    var reg: Input
    var writer: Writer
    var eraser: Eraser
    var reader: Reader

    constructor ()
      ensures reg == NO_INPUT && writer == Writer(true, 0, 0, 0, -1, false)
      ensures eraser == Eraser(false, false, 0, 0, 0, 0, false, false)
      ensures reader == Reader(HwReset, 0, 0, 0, 0, 0, false, false, false, false)
    {
      reg, writer := NO_INPUT, Writer(true, 0, 0, 0, -1, false);
      eraser := Eraser(false, false, 0, 0, 0, 0, false, false);
      reader := Reader(HwReset, 0, 0, 0, 0, 0, false, false, false, false);
    }

    /** One edge: every process sees the registers as they were. */
    method Tick(i: Input, erase: bool, trigger: int, ready: bool, readback: Word)
      modifies this
      ensures reg == RegisterStep(old(reg), i, old(eraser))
      ensures writer == WriterStep(old(writer), old(reg))
      ensures eraser == EraserStep(old(eraser), erase)
      ensures reader == ReaderStep(old(reader), old(writer).writeMode, trigger, ready, readback)
    {
      hide AddressWord, Depth;
      var r := TickReader(reader, writer.writeMode, trigger, ready, readback);
      var w := TickWriter(writer, reg);
      if i.valid {
        reg := i;
      } else if eraser.valid {
        reg := Input(true, UDP_PORT_SEQ_SERIAL, eraser.data);
      } else {
        reg := Input(false, 0, reg.data);
      }
      var e := TickEraser(eraser, erase);
      reader, writer, eraser := r, w, e;
    }

    method TickWriter(s: Writer, r: Input) returns (w: Writer)
      ensures w == WriterStep(s, r)
    {
      w := s.(enable := -1);
      if r.valid && (r.port == UDP_PORT_SEQ_SERIAL || r.port / 64 % 256 == 0x80) {
        w := w.(writeMode := true);
        if w.isAddress {
          w := w.(address := r.data % 1024, isAddress := false);
          if r.port == UDP_PORT_SEQ_SERIAL {
            w := w.(destination := Hi(r.data));
          } else {
            w := w.(destination := r.port);
          }
        } else {
          w := w.(data := r.data, isAddress := true, enable := MemoryOf(s.destination));
        }
      } else {
        w := w.(isAddress := true, writeMode := false);
      }
    }

    method TickEraser(s: Eraser, erase: bool) returns (e: Eraser)
      ensures e == EraserStep(s, erase)
    {
      hide AddressWord;
      e := s.(done := false, valid := false);
      if e.doErase {
        e := e.(valid := true);
        if e.writeAddress {
          e := e.(data := AddressWord(e.block, e.address), writeAddress := false);
        } else {
          e := e.(data := 0, writeAddress := true);
          if e.address == e.maxAddress {
            if e.block == UDP_PORT_SEQ_IND_SUB_REP {
              e := e.(doErase := false, done := true);
            } else {
              e := e.(block := (e.block + 1) % TWO16);
              if e.block == 0x2001 || e.block == 0x2002 {
                e := e.(maxAddress := 255);
              } else {
                e := e.(maxAddress := 15);
              }
            }
            e := e.(address := 0);
          } else {
            e := e.(address := (e.address + 1) % 1024);
          }
        }
      } else if erase {
        e := e.(doErase := true, writeAddress := true, block := UDP_PORT_SEQ_PROGRAM, maxAddress := 1023, address := 0);
      }
    }

    method TickReader(s: Reader, stalled: bool, trigger: int, ready: bool, readback: Word) returns (r: Reader)
      ensures r == ReaderStep(s, stalled, trigger, ready, readback)
    {
      hide AddressWord, Depth;
      r := s.(request := false, busy := false, validOut := false, done := false);
      if !stalled {
        match s.state {
          case HwReset =>
            r := r.(state := Idle);
          case Idle =>
            r := r.(maxAddress := 0);
            if 0 <= trigger < 7 {
              r := r.(mem := trigger, maxAddress := Depth(trigger) - 1, state := TxReqWait, request := true, address := 0);
            }
          case TxReqWait =>
            r := r.(request := true);
            if ready {
              r := r.(state := ReadAddr);
            }
          case ReadAddr =>
            r := r.(dataOut := AddressWord(UDP_PORT_SEQ_PROGRAM + s.mem, s.address), validOut := true, busy := true, state := ReadData);
          case ReadData =>
            r := r.(dataOut := readback, validOut := true, busy := true);
            if r.address == r.maxAddress {
              r := r.(state := Idle, done := true);
            } else {
              r := r.(address := (r.address + 1) % 1024, state := ReadAddr);
            }
        }
      }
      r := r.(addressOut := r.address);
    }
  }

  // ---------------------------------------------------------------------------
  // With the memories behind it
  // ---------------------------------------------------------------------------

  /** The entity and the memories; `latched` is the address a memory with a registered address
      port works on, `log` the writes that have reached the memories. */
  datatype System = System(reg: Input, writer: Writer, eraser: Eraser, reader: Reader, latched: nat,
                           mems: Memories, log: seq<Write>)

  /** What the environment does at an edge. */
  datatype Edge = Edge(input: Input, erase: bool, trigger: int, ready: bool)

  /** `seq_mem_w_add`. */
  function MemoryAddress(s: System): nat { if s.writer.writeMode then s.writer.address else s.reader.addressOut }

  function Readback(s: System, registered: bool): Word {
    s.mems[s.reader.mem][(if registered then s.latched else MemoryAddress(s)) % Depth(s.reader.mem)]
  }

  /** The write that the memories see at the next edge. */
  function Pending(s: System): seq<Write> {
    if 0 <= s.writer.enable < 7 then [Write(s.writer.enable, MemoryAddress(s), s.writer.data)] else []
  }

  function PutAll(ms: Memories, ws: seq<Write>): Memories
    decreases |ws|
  {
    if ws == [] then ms else PutAll(Put(ms, ws[0]), ws[1..])
  }

  function Step(s: System, e: Edge, registered: bool): System {
    System(RegisterStep(s.reg, e.input, s.eraser),
           WriterStep(s.writer, s.reg),
           EraserStep(s.eraser, e.erase),
           ReaderStep(s.reader, s.writer.writeMode, e.trigger, e.ready, Readback(s, registered)),
           MemoryAddress(s),
           PutAll(s.mems, Pending(s)),
           s.log + Pending(s))
  }

  // ---------------------------------------------------------------------------
  // The simple form: one word at a time, no pipeline
  // ---------------------------------------------------------------------------

  /** A writer that handles each word of the stream at once. */
  datatype Direct = Direct(isAddress: bool, destination: Half, address: nat, mems: Memories, log: seq<Write>)

  function DirectStep(d: Direct, r: Input): Direct {
    if r.valid && SequencerPort(r.port) then
      if d.isAddress then
        d.(isAddress := false, address := r.data % 1024,
           destination := if r.port == UDP_PORT_SEQ_SERIAL then Hi(r.data) else r.port)
      else if MemoryOf(d.destination) >= 0 then
        var w := Write(MemoryOf(d.destination), d.address, r.data);
        d.(isAddress := true, mems := Put(d.mems, w), log := d.log + [w])
      else d.(isAddress := true)
    else d.(isAddress := true)
  }

  /** The pipeline with the pending write carried out. */
  function Written(s: System): Direct {
    Direct(s.writer.isAddress, s.writer.destination, s.writer.address, PutAll(s.mems, Pending(s)), s.log + Pending(s))
  }

  /** The pipeline emptied. */
  function Drained(s: System): Direct { DirectStep(Written(s), s.reg) }

  /** A write enable is up only in write mode. */
  predicate WriteModeOk(s: System) { 0 <= s.writer.enable < 7 ==> s.writer.writeMode }

  lemma PutOne(ms: Memories, w: Write)
    ensures PutAll(ms, [w]) == Put(ms, w) && PutAll(ms, []) == ms
  {
    hide Put;
    assert PutAll(ms, [w]) == PutAll(Put(ms, w), []);
  }

  lemma WriterRefines(s: System, e: Edge, registered: bool)
    requires WriteModeOk(s)
    ensures WriteModeOk(Step(s, e, registered)) && Written(Step(s, e, registered)) == Drained(s)
  {
    hide Put, SequencerPort, MemoryOf, Readback, ReaderStep, EraserStep, Hi, PutAll;
    var n := Step(s, e, registered);
    var m := PutAll(s.mems, Pending(s));
    PutOne(m, Write(0, 0, 0));
    if Pending(n) != [] {
      PutOne(m, Pending(n)[0]);
    }
  }

  /** The pipeline refines the simple form: emptied after an edge, it is where the simple writer
      is after one more word of the multiplexed stream. */
  lemma PipelineRefines(s: System, e: Edge, registered: bool)
    requires WriteModeOk(s)
    ensures WriteModeOk(Step(s, e, registered))
    ensures Drained(Step(s, e, registered)) == DirectStep(Drained(s), RegisterStep(s.reg, e.input, s.eraser))
  {
    hide DirectStep, Written, WriterStep, EraserStep, ReaderStep, Readback, RegisterStep, WriteModeOk, PutAll, Pending;
    WriterRefines(s, e, registered);
  }

  // ---------------------------------------------------------------------------
  // Erasing
  // ---------------------------------------------------------------------------

  /** Locations before memory `m` in the order of the erase. */
  function Base(m: Memory): nat {
    if m == 0 then 0 else if m == 1 then 1024 else if m == 2 then 1280 else 1536 + 16 * (m - 3)
  }

  const LOCATIONS: nat := 1600

  /** The `k`-th location to be erased. */
  function Erasure(k: nat): Write {
    if k < 1024 then Write(0, k, 0)
    else if k < 1280 then Write(1, k - 1024, 0)
    else if k < 1536 then Write(2, k - 1280, 0)
    else if k < LOCATIONS then Write(3 + (k - 1536) / 16, (k - 1536) % 16, 0)
    else Write(0, 0, 0)
  }

  function Erasures(n: nat): seq<Write> { seq(n, k requires 0 <= k < n => Erasure(k)) }

  /** The list names every location of every memory exactly once. */
  lemma EveryLocationOnce(m: Memory, a: nat)
    requires a < Depth(m)
    ensures Base(m) + a < LOCATIONS && Erasure(Base(m) + a) == Write(m, a, 0)
    ensures forall k :: 0 <= k < LOCATIONS && Erasure(k) == Write(m, a, 0) ==> k == Base(m) + a
  {
    if m >= 3 {
      assert (16 * (m - 3) + a) / 16 == m - 3 && (16 * (m - 3) + a) % 16 == a;
    }
  }

  /** The first `n` locations are zero. */
  predicate Cleared(ms: Memories, n: nat) {
    n <= LOCATIONS && forall m: Memory, a :: 0 <= a < Depth(m) && Base(m) + a < n ==> ms[m][a] == 0
  }

  /** The eraser's output as a word of the stream. */
  function EraserWord(e: Eraser): Input { if e.valid then Input(true, UDP_PORT_SEQ_SERIAL, e.data) else NO_INPUT }

  /** Location the eraser is at. */
  function Reached(e: Eraser): int {
    if UDP_PORT_SEQ_PROGRAM <= e.block <= UDP_PORT_SEQ_IND_SUB_REP then Base(e.block - UDP_PORT_SEQ_PROGRAM) + e.address else -1
  }

  /** The eraser is at work, and the simple writer, its words consumed, has erased what it has passed. */
  predicate Erasing(d: Direct, e: Eraser, log: seq<Write>) {
    && e.doErase
    && UDP_PORT_SEQ_PROGRAM <= e.block <= UDP_PORT_SEQ_IND_SUB_REP
    && e.maxAddress == Depth(e.block - UDP_PORT_SEQ_PROGRAM) - 1 && e.address <= e.maxAddress
    && d.log == log + Erasures(Reached(e)) && Cleared(d.mems, Reached(e))
    && (if e.writeAddress then d.isAddress else !d.isAddress && d.destination == e.block && d.address == e.address)
  }

  lemma PutZero(ms: Memories, m: Memory, a: nat)
    requires a < Depth(m) && Cleared(ms, Base(m) + a)
    ensures Cleared(Put(ms, Write(m, a, 0)), Base(m) + a + 1)
  {
    hide Limit;
    var r := Put(ms, Write(m, a, 0));
    LimitPositive(m);
    EveryLocationOnce(m, a);
    forall k: Memory, b | 0 <= b < Depth(k) && Base(k) + b < Base(m) + a + 1
      ensures r[k][b] == 0
    {
      if k != m {
        assert r[k] == ms[k];
      }
    }
  }

  lemma LimitPositive(m: Memory)
    ensures 0 < Limit(m) && 0 % Limit(m) == 0
  {
  }

  lemma AddressWordFields(block: Half, a: nat)
    requires a < 1024
    ensures AddressWord(block, a) == 0x1_0000 * block + a
    ensures Hi(AddressWord(block, a)) == block && AddressWord(block, a) % 1024 == a
  {
    SmallMod(a, 1024);
    LowTen(64 * block, a);
    assert AddressWord(block, a) == 1024 * (64 * block) + a;
  }

  lemma LowTen(k: nat, a: nat)
    requires a < 1024
    ensures (1024 * k + a) % 1024 == a
  {
  }

  /** Edges until the last word has left the eraser. */
  function WordsLeft(e: Eraser): int { 2 * (LOCATIONS - Reached(e)) - if e.writeAddress then 0 else 1 }

  /** The eraser sends the address of its location. */
  lemma EraseAddress(d: Direct, e: Eraser, log: seq<Write>)
    requires Erasing(d, e, log) && e.writeAddress
    ensures var n := EraserStep(e, false); Erasing(DirectStep(d, EraserWord(n)), n, log) && WordsLeft(n) == WordsLeft(e) - 1
  {
    hide Cleared, AddressWord, Hi, Erasures, Base;
    AddressWordFields(e.block, e.address);
  }

  lemma OneErasureMore(k: nat)
    ensures Erasures(k + 1) == Erasures(k) + [Erasure(k)]
  {
  }

  /** Where the eraser goes after the zero. */
  lemma NextLocation(e: Eraser)
    requires e.doErase && !e.writeAddress && UDP_PORT_SEQ_PROGRAM <= e.block <= UDP_PORT_SEQ_IND_SUB_REP
    requires e.maxAddress == Depth(e.block - UDP_PORT_SEQ_PROGRAM) - 1 && e.address <= e.maxAddress
    ensures var n := EraserStep(e, false);
            && n.valid && n.data == 0 && n.writeAddress
            && (n.doErase <==> Reached(e) + 1 < LOCATIONS) && n.done == !n.doErase
            && (n.doErase ==>
                  && UDP_PORT_SEQ_PROGRAM <= n.block <= UDP_PORT_SEQ_IND_SUB_REP && Reached(n) == Reached(e) + 1
                  && n.maxAddress == Depth(n.block - UDP_PORT_SEQ_PROGRAM) - 1 && n.address <= n.maxAddress)
  {
    hide AddressWord;
  }

  /** The eraser sends the zero. */
  lemma EraseZero(d: Direct, e: Eraser, log: seq<Write>)
    requires Erasing(d, e, log) && !e.writeAddress
    ensures var n := EraserStep(e, false);
            var f := DirectStep(d, EraserWord(n));
            && (n.doErase <==> WordsLeft(e) > 1) && n.done == !n.doErase
            && (n.doErase ==> Erasing(f, n, log) && WordsLeft(n) == WordsLeft(e) - 1)
            && (!n.doErase ==> f.log == log + Erasures(LOCATIONS) && Cleared(f.mems, LOCATIONS))
  {
    hide Cleared, EraserStep, Put, Erasures, Base, Erasure, Depth;
    NextLocation(e);
    var m := e.block - UDP_PORT_SEQ_PROGRAM;
    PutZero(d.mems, m, e.address);
    EveryLocationOnce(m, e.address);
    OneErasureMore(Reached(e));
    assert d.log + [Write(m, e.address, 0)] == log + Erasures(Reached(e) + 1);
  }

  function Run(s: System, es: seq<Edge>, registered: bool): System
    decreases |es|
  {
    if es == [] then s else Run(Step(s, es[0], registered), es[1..], registered)
  }

  /** Neither words from outside nor an erase command. */
  predicate Quiet(e: Edge) { !e.input.valid && !e.erase }

  /** The pipeline emptied, the eraser's word included. */
  function Ahead(s: System): Direct { DirectStep(Drained(s), EraserWord(s.eraser)) }

  lemma QuietStep(s: System, e: Edge, registered: bool)
    requires WriteModeOk(s) && Quiet(e)
    ensures var n := Step(s, e, registered);
            && WriteModeOk(n) && n.eraser == EraserStep(s.eraser, false)
            && Ahead(n) == DirectStep(Ahead(s), EraserWord(n.eraser))
  {
    hide Drained, EraserStep, WriterStep, ReaderStep, Readback, WriteModeOk, PutAll, Pending, Put, SequencerPort, MemoryOf, Hi;
    PipelineRefines(s, e, registered);
  }

  /** Edges until nothing is under way, once the eraser has stopped. */
  function Level(s: System): nat {
    if s.eraser.valid then 3 else if s.reg.valid then 2 else if Pending(s) != [] then 1 else 0
  }

  lemma SettleStep(s: System, e: Edge, registered: bool)
    requires WriteModeOk(s) && Quiet(e) && !s.eraser.doErase
    ensures var n := Step(s, e, registered);
            && WriteModeOk(n) && !n.eraser.doErase && Level(n) <= (if Level(s) > 0 then Level(s) - 1 else 0)
            && Ahead(n).mems == Ahead(s).mems && Ahead(n).log == Ahead(s).log
  {
    hide Ahead, ReaderStep, Readback, Put, PutAll, Drained, DirectStep, SequencerPort, MemoryOf, Hi, AddressWord;
    QuietStep(s, e, registered);
    NoWord(Ahead(s));
  }

  lemma NoWord(d: Direct)
    ensures DirectStep(d, NO_INPUT) == d.(isAddress := true)
  {
  }

  lemma AtRest(s: System)
    requires Level(s) == 0
    ensures Ahead(s).mems == s.mems && Ahead(s).log == s.log
  {
    hide Put, SequencerPort, MemoryOf, Hi;
  }

  lemma {:induction false} Settles(s: System, es: seq<Edge>, registered: bool)
    requires WriteModeOk(s) && !s.eraser.doErase && |es| >= Level(s) && forall k :: 0 <= k < |es| ==> Quiet(es[k])
    ensures Run(s, es, registered).mems == Ahead(s).mems && Run(s, es, registered).log == Ahead(s).log
    ensures Level(Run(s, es, registered)) == 0
    decreases |es|
  {
    hide Ahead, Step, WriteModeOk, Level, Quiet;
    if es == [] {
      AtRest(s);
    } else {
      SettleStep(s, es[0], registered);
      Settles(Step(s, es[0], registered), es[1..], registered);
    }
  }

  lemma EraseStep(s: System, e: Edge, registered: bool, log: seq<Write>)
    requires WriteModeOk(s) && Quiet(e) && Erasing(Ahead(s), s.eraser, log)
    ensures var n := Step(s, e, registered);
            && WriteModeOk(n)
            && (n.eraser.doErase <==> WordsLeft(s.eraser) > 1) && n.eraser.done == !n.eraser.doErase
            && (n.eraser.doErase ==> Erasing(Ahead(n), n.eraser, log) && WordsLeft(n.eraser) == WordsLeft(s.eraser) - 1)
            && (!n.eraser.doErase ==> Ahead(n).log == log + Erasures(LOCATIONS) && Cleared(Ahead(n).mems, LOCATIONS))
  {
    hide Ahead, Step, WriteModeOk, DirectStep, EraserStep, EraserWord, Cleared, Erasures, Erasing, WordsLeft;
    QuietStep(s, e, registered);
    if s.eraser.writeAddress {
      EraseAddress(Ahead(s), s.eraser, log);
      AddressLeavesMore(Ahead(s), s.eraser, log);
    } else {
      EraseZero(Ahead(s), s.eraser, log);
    }
  }

  lemma AddressLeavesMore(d: Direct, e: Eraser, log: seq<Write>)
    requires Erasing(d, e, log) && e.writeAddress
    ensures WordsLeft(e) > 1 && EraserStep(e, false).doErase && !EraserStep(e, false).done
  {
    hide AddressWord, Cleared, Erasures;
  }

  lemma AllCleared(ms: Memories)
    requires Cleared(ms, LOCATIONS)
    ensures ms == Zeroes()
  {
    forall m: Memory
      ensures ms[m] == Zeroes()[m]
    {
      forall a | 0 <= a < Depth(m)
        ensures ms[m][a] == 0
      {
        EveryLocationOnce(m, a);
      }
    }
  }

  /** While the eraser works: it stops after exactly the words it has left, raising `done` then,
      and three edges later the memories are blank. */
  lemma {:induction false} EraseRun(s: System, es: seq<Edge>, registered: bool, log: seq<Write>)
    requires WriteModeOk(s) && Erasing(Ahead(s), s.eraser, log) && forall k :: 0 <= k < |es| ==> Quiet(es[k])
    ensures var n := Run(s, es, registered);
            && (n.eraser.doErase <==> |es| < WordsLeft(s.eraser))
            && (|es| == WordsLeft(s.eraser) ==> n.eraser.done)
            && (|es| >= WordsLeft(s.eraser) + 3 ==> n.mems == Zeroes() && n.log == log + Erasures(LOCATIONS) && Level(n) == 0)
    decreases |es|
  {
    hide Ahead, Step, WriteModeOk, Erasures, Erasing, WordsLeft, Cleared, Quiet, Level, Zeroes;
    if es == [] {
      StillErasing(Ahead(s), s.eraser, log);
    } else {
      var n := Step(s, es[0], registered);
      EraseStep(s, es[0], registered, log);
      StillErasing(Ahead(s), s.eraser, log);
      if n.eraser.doErase {
        EraseRun(n, es[1..], registered, log);
      } else {
        StaysStopped(n, es[1..], registered);
        LevelBound(n);
        if |es| >= 4 {
          Settles(n, es[1..], registered);
          AllCleared(Ahead(n).mems);
        }
      }
    }
  }

  lemma StillErasing(d: Direct, e: Eraser, log: seq<Write>)
    requires Erasing(d, e, log)
    ensures WordsLeft(e) > 0 && e.doErase
  {
    hide Cleared, Erasures;
  }

  lemma LevelBound(s: System)
    ensures Level(s) <= 3
  {
  }

  lemma {:induction false} StaysStopped(s: System, es: seq<Edge>, registered: bool)
    requires !s.eraser.doErase && forall k :: 0 <= k < |es| ==> Quiet(es[k])
    ensures !Run(s, es, registered).eraser.doErase
    decreases |es|
  {
    hide WriterStep, ReaderStep, RegisterStep, PutAll, Pending, Readback, MemoryAddress, AddressWord;
    if es != [] {
      StaysStopped(Step(s, es[0], registered), es[1..], registered);
    }
  }

  /** Nothing under way. */
  predicate Resting(s: System) { WriteModeOk(s) && !s.eraser.doErase && Level(s) == 0 }

  /** An erase command with no other traffic: 3200 words, then `done`; and when they have been
      through the pipeline every location of all seven memories has been written exactly once,
      with zero, and nothing else has been written. */
  lemma EraseAll(s: System, start: Edge, es: seq<Edge>, registered: bool)
    requires Resting(s) && !start.input.valid && start.erase && forall k :: 0 <= k < |es| ==> Quiet(es[k])
    ensures var n := Run(s, [start] + es, registered);
            && (n.eraser.doErase <==> |es| < 3200)
            && (|es| == 3200 ==> n.eraser.done)
            && (|es| >= 3203 ==> n.mems == Zeroes() && n.log == s.log + Erasures(LOCATIONS) && Resting(n))
  {
    hide Step, WriteModeOk, Erasures, Erasing, WordsLeft, Cleared, Quiet, Level, Zeroes, Ahead;
    var f := Step(s, start, registered);
    EraseStarts(s, start, registered);
    assert ([start] + es)[1..] == es;
    EraseRun(f, es, registered, s.log);
    KeepsWriteMode(f, es, registered);
  }

  lemma EraseStarts(s: System, start: Edge, registered: bool)
    requires Resting(s) && !start.input.valid && start.erase
    ensures var f := Step(s, start, registered); WriteModeOk(f) && Erasing(Ahead(f), f.eraser, s.log) && WordsLeft(f.eraser) == 3200
  {
    hide ReaderStep, Readback, Put, SequencerPort, MemoryOf, Hi, AddressWord;
    assert s.log + Erasures(0) == s.log;
  }

  lemma {:induction false} KeepsWriteMode(s: System, es: seq<Edge>, registered: bool)
    requires WriteModeOk(s) && forall k :: 0 <= k < |es| ==> Quiet(es[k])
    ensures WriteModeOk(Run(s, es, registered))
    decreases |es|
  {
    hide Step, WriteModeOk, Quiet;
    if es != [] {
      QuietStep(s, es[0], registered);
      KeepsWriteMode(Step(s, es[0], registered), es[1..], registered);
    }
  }

  // ---------------------------------------------------------------------------
  // Reading back
  // ---------------------------------------------------------------------------

  /** Address and data words of memory `m` from location `a` on. */
  function Dump(ms: Memories, m: Memory, a: nat): seq<Word>
    decreases Depth(m) - a
  {
    if a >= Depth(m) then [] else [AddressWord(UDP_PORT_SEQ_PROGRAM + m, a), ms[m][a]] + Dump(ms, m, a + 1)
  }

  function Stored(ms: Memories, m: Memory, a: nat): Word { ms[m][a % Depth(m)] }

  /** What the reader has still to send. */
  function ToSend(s: System): seq<Word> {
    match s.reader.state
    case TxReqWait => Dump(s.mems, s.reader.mem, 0)
    case ReadAddr => Dump(s.mems, s.reader.mem, s.reader.address)
    case ReadData => [Stored(s.mems, s.reader.mem, s.reader.address)] + Dump(s.mems, s.reader.mem, s.reader.address + 1)
    case _ => []
  }

  /** The words sent during a run. */
  function Sent(s: System, es: seq<Edge>, registered: bool): seq<Word>
    decreases |es|
  {
    if es == [] then []
    else
      var n := Step(s, es[0], registered);
      (if n.reader.validOut then [n.reader.dataOut] else []) + Sent(n, es[1..], registered)
  }

  /** Pulses of `done` during a run. */
  function ReadDones(s: System, es: seq<Edge>, registered: bool): nat
    decreases |es|
  {
    if es == [] then 0
    else
      var n := Step(s, es[0], registered);
      (if n.reader.done then 1 else 0) + ReadDones(n, es[1..], registered)
  }

  /** The reader's lines at an edge: a request while it waits for the grant, busy with every word it
      sends, `done` exactly with the last; and while the writer is at work it does nothing. */
  lemma ReaderLines(r: Reader, stalled: bool, trigger: int, ready: bool, readback: Word)
    ensures var t := ReaderStep(r, stalled, trigger, ready, readback);
            && (t.busy <==> t.validOut) && (t.validOut <==> !stalled && (r.state == ReadAddr || r.state == ReadData))
            && (t.request <==> !stalled && (r.state == TxReqWait || (r.state == Idle && 0 <= trigger < 7)))
            && (t.done <==> !stalled && r.state == ReadData && t.state == Idle)
            && (t.done <==> !stalled && r.state == ReadData && r.address == r.maxAddress)
            && (stalled ==> t.state == r.state && t.address == r.address && t.mem == r.mem && t.maxAddress == r.maxAddress)
  {
    hide AddressWord, Depth;
  }

  /** No write or erase under way; a dump, if one is, has its address on the memories in time. */
  predicate Reading(s: System) {
    && !s.writer.writeMode && s.writer.enable == -1 && !s.reg.valid && !s.eraser.valid && !s.eraser.doErase
    && (s.reader.state == TxReqWait ==> s.reader.address == 0)
    && (s.reader.state == TxReqWait || s.reader.state == ReadAddr || s.reader.state == ReadData ==>
          && s.reader.maxAddress == Depth(s.reader.mem) - 1 && s.reader.address <= s.reader.maxAddress
          && s.reader.addressOut == s.reader.address)
    && (s.reader.state == ReadData ==> s.latched == s.reader.address)
  }

  lemma DumpParts(ms: Memories, m: Memory, a: nat)
    requires a < Depth(m)
    ensures Dump(ms, m, a) == [AddressWord(UDP_PORT_SEQ_PROGRAM + m, a)] + ([Stored(ms, m, a)] + Dump(ms, m, a + 1))
    ensures Dump(ms, m, Depth(m)) == []
  {
    hide AddressWord;
    SmallMod(a, Depth(m));
    assert Dump(ms, m, a) == [AddressWord(UDP_PORT_SEQ_PROGRAM + m, a), ms[m][a]] + Dump(ms, m, a + 1);
  }

  lemma SmallMod(x: nat, n: nat)
    requires x < n
    ensures x % n == x
  {
  }

  /** A quiet edge while nothing is written touches the reader alone. */
  lemma OnlyReads(s: System, e: Edge, registered: bool)
    requires Reading(s) && Quiet(e)
    ensures var n := Step(s, e, registered);
            && n.mems == s.mems && n.log == s.log && n.latched == s.reader.addressOut
            && !n.writer.writeMode && n.writer.enable == -1 && !n.reg.valid && !n.eraser.valid && !n.eraser.doErase
            && n.reader == ReaderStep(s.reader, false, e.trigger, e.ready, Readback(s, registered))
    ensures s.reader.state == ReadData ==> Readback(s, registered) == Stored(s.mems, s.reader.mem, s.reader.address)
  {
    hide ReaderStep, Put, AddressWord, Depth, SequencerPort, MemoryOf;
  }

  /** Sent so far, then what is still to be sent: the same at every edge. */
  lemma ReadStep(s: System, e: Edge, registered: bool)
    requires Reading(s) && Quiet(e) && (s.reader.state == Idle ==> e.trigger == -1)
    ensures var n := Step(s, e, registered);
            && Reading(n) && n.mems == s.mems && n.log == s.log
            && (if n.reader.validOut then [n.reader.dataOut] else []) + ToSend(n) == ToSend(s)
  {
    hide AddressWord, Dump, Depth, Step, Readback, Stored;
    OnlyReads(s, e, registered);
    if s.reader.state != Idle && s.reader.state != HwReset {
      DumpParts(s.mems, s.reader.mem, s.reader.address);
    }
  }

  /** Edges until the last word. */
  function ReadLeft(s: System): int {
    match s.reader.state
    case ReadAddr => 2 * (Depth(s.reader.mem) - s.reader.address)
    case ReadData => 2 * (Depth(s.reader.mem) - s.reader.address) - 1
    case _ => 0
  }

  lemma ReadProgress(s: System, e: Edge, registered: bool)
    requires Reading(s) && Quiet(e) && (s.reader.state == Idle ==> e.trigger == -1)
    ensures var n := Step(s, e, registered);
            && (s.reader.state == ReadAddr || s.reader.state == ReadData || s.reader.state == Idle ==>
                  n.reader.state == ReadAddr || n.reader.state == ReadData || n.reader.state == Idle)
            && (s.reader.state == TxReqWait ==>
                  n.reader.state == (if e.ready then ReadAddr else TxReqWait) && n.reader.mem == s.reader.mem)
            && (s.reader.state == TxReqWait && e.ready ==> ReadLeft(n) == 2 * Depth(s.reader.mem))
            && (s.reader.state == ReadAddr || s.reader.state == ReadData ==> ReadLeft(n) == ReadLeft(s) - 1)
            && (s.reader.state == Idle ==> ReadLeft(n) == 0)
            && (s.reader.state == ReadAddr || s.reader.state == ReadData ==> ReadLeft(s) > 0)
  {
    hide Step, ReaderStep, Readback, Depth;
    OnlyReads(s, e, registered);
    ReaderMoves(s.reader, e.trigger, e.ready, Readback(s, registered));
  }

  lemma ReaderMoves(r: Reader, trigger: int, ready: bool, readback: Word)
    ensures var t := ReaderStep(r, false, trigger, ready, readback);
            && (r.state == Idle && trigger == -1 ==> t.state == Idle)
            && (r.state == TxReqWait ==> t.state == (if ready then ReadAddr else TxReqWait) && t.mem == r.mem && t.address == r.address)
            && (r.state == ReadAddr ==> t.state == ReadData && t.mem == r.mem && t.address == r.address)
            && (r.state == ReadData && r.address == r.maxAddress ==> t.state == Idle)
            && (r.state == ReadData && r.address != r.maxAddress ==>
                  t.state == ReadAddr && t.mem == r.mem && t.address == (r.address + 1) % 1024)
  {
    hide AddressWord, Depth;
  }

  lemma {:induction false} ReadRun(s: System, es: seq<Edge>, registered: bool)
    requires Reading(s) && (s.reader.state == ReadAddr || s.reader.state == ReadData || s.reader.state == Idle)
    requires |es| >= ReadLeft(s) && forall k :: 0 <= k < |es| ==> Quiet(es[k]) && es[k].trigger == -1
    ensures var n := Run(s, es, registered); n.reader.state == Idle && n.mems == s.mems && Reading(n)
    ensures Sent(s, es, registered) == ToSend(s)
    ensures ReadDones(s, es, registered) == if s.reader.state == Idle then 0 else 1
    decreases |es|
  {
    hide Reading, Step, Quiet, ReadLeft, Dump;
    if es == [] {
      NothingLeft(s);
    } else {
      var n := Step(s, es[0], registered);
      DoneAtEnd(s, es[0], registered);
      ReadStep(s, es[0], registered);
      ReadProgress(s, es[0], registered);
      NothingLeft(s);
      NothingLeft(n);
      ReadRun(n, es[1..], registered);
    }
  }

  lemma DoneAtEnd(s: System, e: Edge, registered: bool)
    requires Reading(s) && Quiet(e)
    ensures Step(s, e, registered).reader.done <==> s.reader.state == ReadData && Step(s, e, registered).reader.state == Idle
    ensures s.reader.state == ReadAddr ==> Step(s, e, registered).reader.state == ReadData
  {
    hide Step, Readback, ReaderStep;
    OnlyReads(s, e, registered);
    ReaderLines(s.reader, false, e.trigger, e.ready, Readback(s, registered));
    if s.reader.state == ReadAddr {
      AddressFirst(s.reader, e.trigger, e.ready, Readback(s, registered));
    }
  }

  lemma AddressFirst(r: Reader, trigger: int, ready: bool, readback: Word)
    requires r.state == ReadAddr
    ensures ReaderStep(r, false, trigger, ready, readback).state == ReadData
  {
  }

  lemma NothingLeft(s: System)
    requires Reading(s)
    ensures ReadLeft(s) >= 0
    ensures ReadLeft(s) == 0 <==> s.reader.state != ReadAddr && s.reader.state != ReadData
    ensures s.reader.state == Idle ==> ToSend(s) == []
  {
  }

  lemma {:induction false} WaitRun(s: System, es: seq<Edge>, k: nat, registered: bool)
    requires Reading(s) && s.reader.state == TxReqWait
    requires forall j :: 0 <= j < |es| ==> Quiet(es[j]) && es[j].trigger == -1
    requires k < |es| && es[k].ready && |es| >= k + 1 + 2 * Depth(s.reader.mem)
    ensures var n := Run(s, es, registered); n.reader.state == Idle && n.mems == s.mems && Reading(n)
    ensures Sent(s, es, registered) == Dump(s.mems, s.reader.mem, 0) && ReadDones(s, es, registered) == 1
    decreases |es|
  {
    hide Reading, Step, Quiet, ReadLeft, Dump;
    DoneAtEnd(s, es[0], registered);
    var n := Step(s, es[0], registered);
    ReadStep(s, es[0], registered);
    ReadProgress(s, es[0], registered);
    if es[0].ready {
      ReadRun(n, es[1..], registered);
    } else {
      WaitRun(n, es[1..], k - 1, registered);
    }
  }

  /** A read trigger with no other traffic: however long the grant takes, the reader sends the
      address and data word of every location of the memory, in order, and nothing else, and raises
      `done` once; the memories stay as they are. It does not matter whether they register their address. */
  lemma ReadsBack(s: System, start: Edge, es: seq<Edge>, k: nat, registered: bool)
    requires Reading(s) && s.reader.state == Idle && Quiet(start) && 0 <= start.trigger < 7
    requires forall j :: 0 <= j < |es| ==> Quiet(es[j]) && es[j].trigger == -1
    requires k < |es| && es[k].ready && |es| >= k + 1 + 2 * Depth(start.trigger)
    ensures var n := Run(s, [start] + es, registered); n.reader.state == Idle && n.mems == s.mems && Reading(n)
    ensures Sent(s, [start] + es, registered) == Dump(s.mems, start.trigger, 0) && ReadDones(s, [start] + es, registered) == 1
  {
    hide Reading, Step, Quiet, Dump;
    DoneAtEnd(s, start, registered);
    ReadStarts(s, start, registered);
    assert ([start] + es)[1..] == es;
    WaitRun(Step(s, start, registered), es, k, registered);
  }

  lemma ReadStarts(s: System, start: Edge, registered: bool)
    requires Reading(s) && s.reader.state == Idle && Quiet(start) && 0 <= start.trigger < 7
    ensures var n := Step(s, start, registered);
            Reading(n) && n.reader.state == TxReqWait && n.reader.mem == start.trigger && n.mems == s.mems && !n.reader.validOut
  {
    hide AddressWord, Put, SequencerPort, MemoryOf, Hi;
  }

  // ---------------------------------------------------------------------------
  // Writing it back
  // ---------------------------------------------------------------------------

  function DirectRun(d: Direct, ws: seq<Input>): Direct
    decreases |ws|
  {
    if ws == [] then d else DirectRun(DirectStep(d, ws[0]), ws[1..])
  }

  lemma {:induction false} DirectRunConcat(d: Direct, x: seq<Input>, y: seq<Input>)
    ensures DirectRun(d, x + y) == DirectRun(DirectRun(d, x), y)
    decreases |x|
  {
    hide DirectStep;
    if x == [] {
      assert x + y == y;
    } else {
      assert (x + y)[0] == x[0] && (x + y)[1..] == x[1..] + y;
      DirectRunConcat(DirectStep(d, x[0]), x[1..], y);
    }
  }

  /** An edge without a word for the sequencer. */
  predicate Gap(i: Input) { !(i.valid && SequencerPort(i.port)) }

  predicate Gaps(ws: seq<Input>) { forall k :: 0 <= k < |ws| ==> Gap(ws[k]) }

  lemma {:induction false} GapsIdle(d: Direct, ws: seq<Input>)
    requires Gaps(ws)
    ensures DirectRun(d, ws) == if ws == [] then d else d.(isAddress := true)
    decreases |ws|
  {
    hide SequencerPort;
    if ws != [] {
      GapsIdle(DirectStep(d, ws[0]), ws[1..]);
    }
  }

  function Serial(w: Word): Input { Input(true, UDP_PORT_SEQ_SERIAL, w) }

  /** An address word, `gap`, a data word: the pair is written exactly when the gap is empty. */
  lemma PairWrites(d: Direct, m: Memory, a: nat, value: Word, gap: seq<Input>)
    requires d.isAddress && a < 1024 && Gaps(gap)
    ensures var f := DirectRun(d, [Serial(AddressWord(UDP_PORT_SEQ_PROGRAM + m, a))] + gap + [Serial(value)]);
            && (gap == [] ==> f.isAddress && f.mems == Put(d.mems, Write(m, a, value)) && f.log == d.log + [Write(m, a, value)])
            && (gap != [] ==> !f.isAddress && f.mems == d.mems && f.log == d.log)
  {
    hide AddressWord, Hi, Put, Gaps;
    var w := AddressWord(UDP_PORT_SEQ_PROGRAM + m, a);
    AddressWordFields(UDP_PORT_SEQ_PROGRAM + m, a);
    var x := DirectStep(d, Serial(w));
    DirectRunConcat(d, [Serial(w)] + gap, [Serial(value)]);
    DirectRunConcat(d, [Serial(w)], gap);
    GapsIdle(x, gap);
    OneWord(d, Serial(w));
    OneWord(DirectRun(x, gap), Serial(value));
  }

  /** The memory may also be named by the port: an address word for port 0x2000 + m, then a data word
      for any of the sequencer's ports, writes to memory m whatever the top of the address word is. */
  lemma PortNamesMemory(d: Direct, m: Memory, w: Word, p: Half, value: Word)
    requires d.isAddress && SequencerPort(p)
    ensures var f := DirectRun(d, [Input(true, 0x2000 + m, w)] + [Input(true, p, value)]);
            && f.isAddress && f.mems == Put(d.mems, Write(m, w % 1024, value)) && f.log == d.log + [Write(m, w % 1024, value)]
  {
    hide Put, Hi;
    var x, y := Input(true, 0x2000 + m, w), Input(true, p, value);
    DirectRunConcat(d, [x], [y]);
    OneWord(d, x);
    OneWord(DirectStep(d, x), y);
    assert SequencerPort(0x2000 + m);
  }

  /** A pair whose address word names no memory writes nothing. */
  lemma NoSuchMemory(d: Direct, w: Word, value: Word)
    requires d.isAddress && !(0x2000 <= Hi(w) <= 0x2006)
    ensures var f := DirectRun(d, [Serial(w)] + [Serial(value)]); f.isAddress && f.mems == d.mems && f.log == d.log
  {
    hide Put, Hi;
    DirectRunConcat(d, [Serial(w)], [Serial(value)]);
    OneWord(d, Serial(w));
    OneWord(DirectStep(d, Serial(w)), Serial(value));
  }

  lemma OneWord(d: Direct, i: Input)
    ensures DirectRun(d, [i]) == DirectStep(d, i)
  {
    hide DirectStep;
    assert DirectRun(d, [i]) == DirectRun(DirectStep(d, i), []);
  }

  /** The dump of memory `m` sent back to the serial port, any gaps behind each pair. */
  function Replay(ms: Memories, m: Memory, a: nat, gaps: seq<seq<Input>>): seq<Input>
    requires |gaps| == Depth(m)
    decreases Depth(m) - a
  {
    if a >= Depth(m) then []
    else [Serial(AddressWord(UDP_PORT_SEQ_PROGRAM + m, a)), Serial(ms[m][a])] + gaps[a] + Replay(ms, m, a + 1, gaps)
  }

  /** Without gaps the stream is the dump itself. */
  lemma {:induction false} ReplayIsDump(ms: Memories, m: Memory, a: nat, gaps: seq<seq<Input>>)
    requires |gaps| == Depth(m) && forall k :: 0 <= k < |gaps| ==> gaps[k] == []
    ensures |Replay(ms, m, a, gaps)| == |Dump(ms, m, a)|
    ensures forall k :: 0 <= k < |Dump(ms, m, a)| ==> Replay(ms, m, a, gaps)[k] == Serial(Dump(ms, m, a)[k])
    decreases Depth(m) - a
  {
    hide AddressWord, Depth;
    if a < Depth(m) {
      ReplayIsDump(ms, m, a + 1, gaps);
    }
  }

  /** Locations up to `a` are restored, the rest is as it was. */
  predicate Restored(was: Memories, now: Memories, ms: Memories, m: Memory, a: nat) {
    && (forall k: Memory :: k != m ==> now[k] == was[k])
    && (forall b :: 0 <= b < Depth(m) ==> now[m][b] == if b < a then ms[m][b] else was[m][b])
  }

  lemma PutParts(ms: Memories, m: Memory, a: nat, v: Word)
    requires a < Depth(m) && v < Limit(m)
    ensures var r := Put(ms, Write(m, a, v)); r[m] == ms[m][a := v] && forall k: Memory :: k != m ==> r[k] == ms[k]
  {
    hide Depth, Limit;
    SmallMod(a, Depth(m));
    SmallMod(v, Limit(m));
  }

  lemma PutRestores(was: Memories, now: Memories, ms: Memories, m: Memory, a: nat)
    requires a < Depth(m) && Restored(was, now, ms, m, a)
    ensures Restored(was, Put(now, Write(m, a, ms[m][a])), ms, m, a + 1)
  {
    hide Depth, Limit, Put;
    PutParts(now, m, a, ms[m][a]);
  }

  lemma {:induction false} ReplayRun(d: Direct, was: Memories, ms: Memories, m: Memory, a: nat, gaps: seq<seq<Input>>)
    requires d.isAddress && a <= Depth(m) && Restored(was, d.mems, ms, m, a)
    requires |gaps| == Depth(m) && forall k :: 0 <= k < |gaps| ==> Gaps(gaps[k])
    ensures var f := DirectRun(d, Replay(ms, m, a, gaps)); f.isAddress && Restored(was, f.mems, ms, m, Depth(m))
    decreases Depth(m) - a
  {
    hide AddressWord, Put, Restored, Gaps, DirectStep, Depth;
    if a < Depth(m) {
      var w := Serial(AddressWord(UDP_PORT_SEQ_PROGRAM + m, a));
      var pair := [w] + [] + [Serial(ms[m][a])];
      assert [w, Serial(ms[m][a])] == pair;
      DirectRunConcat(d, pair + gaps[a], Replay(ms, m, a + 1, gaps));
      DirectRunConcat(d, pair, gaps[a]);
      NoGap();
      PairWrites(d, m, a, ms[m][a], []);
      PutRestores(was, d.mems, ms, m, a);
      GapsIdle(DirectRun(d, pair), gaps[a]);
      ReplayRun(DirectRun(d, pair + gaps[a]), was, ms, m, a + 1, gaps);
    }
  }

  lemma NoGap()
    ensures Gaps([])
  {
  }

  /** The pipeline follows the simple writer over a whole stream from outside. */
  lemma {:induction false} StreamRefines(s: System, es: seq<Edge>, ws: seq<Input>, registered: bool)
    requires WriteModeOk(s) && !s.eraser.doErase && !s.eraser.valid
    requires |es| == |ws| && forall k :: 0 <= k < |es| ==> es[k].input == ws[k] && !es[k].erase
    ensures var n := Run(s, es, registered);
            WriteModeOk(n) && !n.eraser.doErase && !n.eraser.valid && Drained(n) == DirectRun(Drained(s), ws)
    decreases |es|
  {
    hide Step, WriteModeOk, Drained, DirectStep;
    if es != [] {
      StreamStep(s, es[0], registered);
      StreamRefines(Step(s, es[0], registered), es[1..], ws[1..], registered);
    }
  }

  lemma StreamStep(s: System, e: Edge, registered: bool)
    requires WriteModeOk(s) && !s.eraser.doErase && !s.eraser.valid && !e.erase
    ensures var n := Step(s, e, registered);
            && WriteModeOk(n) && !n.eraser.doErase && !n.eraser.valid
            && Drained(n) == DirectStep(Drained(s), e.input)
  {
    hide WriterStep, ReaderStep, Readback, WriteModeOk, PutAll, Pending, Put, SequencerPort, MemoryOf, Hi, Drained;
    PipelineRefines(s, e, registered);
  }

  /** Dump and replay: a memory's dump, sent back with any gaps between (not inside) its pairs,
      restores that memory whatever it held in the meantime, and leaves the other six alone. */
  lemma DumpReplays(s: System, es: seq<Edge>, tail: seq<Edge>, ms: Memories, m: Memory, gaps: seq<seq<Input>>, registered: bool)
    requires Resting(s)
    requires |gaps| == Depth(m) && forall k :: 0 <= k < |gaps| ==> Gaps(gaps[k])
    requires var ws := Replay(ms, m, 0, gaps); |es| == |ws| && forall k :: 0 <= k < |es| ==> es[k].input == ws[k] && !es[k].erase
    requires |tail| >= 3 && forall k :: 0 <= k < |tail| ==> Quiet(tail[k])
    ensures Run(Run(s, es, registered), tail, registered).mems == s.mems[m := ms[m]]
  {
    hide Step, WriteModeOk, Ahead, Drained, DirectRun, Replay, Put, Level, Depth, Quiet;
    var n := Run(s, es, registered);
    RestingFacts(s);
    StreamRefines(s, es, Replay(ms, m, 0, gaps), registered);
    ReplayRun(Drained(s), s.mems, ms, m, 0, gaps);
    DrainedAhead(n);
    LevelBound(n);
    Settles(n, tail, registered);
    var r := Ahead(n).mems;
    assert r[m] == ms[m];
    assert r == s.mems[m := ms[m]];
  }

  lemma RestingFacts(s: System)
    requires Resting(s)
    ensures !s.eraser.valid && Drained(s).isAddress && Drained(s).mems == s.mems
  {
    hide Put, SequencerPort, MemoryOf, Hi;
  }

  lemma DrainedAhead(s: System)
    requires !s.eraser.valid
    ensures Ahead(s).mems == Drained(s).mems
  {
    hide Drained;
  }

  /** The ports the writer listens to: the serial one, and the 64 from 0x2000 on, whatever the two
      highest bits are. */
  lemma SequencerPorts(p: Half)
    ensures SequencerPort(p) <==> p == 0x1999 || 0x2000 <= p % 0x4000 < 0x2040
  {
    var q, r := p / 0x4000, p % 0x4000;
    assert p / 64 == q * 256 + r / 64;
  }
}
