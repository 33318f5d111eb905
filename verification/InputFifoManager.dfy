/** ethernet/input_fifo_manager.vhd: chooses the FIFO the next data frame is read from, and
    keeps the FIFOs from overflowing. */
module InputFifoManager {
  import opened Words

  // ---------------------------------------------------------------------------
  // trigger_payload_rdy: a search that looks at one FIFO per clock
  // ---------------------------------------------------------------------------

  /** One FIFO as the search sees it at a clock edge: fill level, the two flag bits, the
      minimum payload size and the registered flush request. */
  datatype View = View(used: nat, enable: bool, priority: bool, minSize: nat, flush: bool)

  /** `step`, `fullest_fifo`, `fifo_used_words` (with the extra entry for "no FIFO"), and the
      registered outputs `mux_sel` and `payload_rdy`. */
  datatype Search = Search(step: int, fullest: nat, used: seq<nat>, muxSel: nat, payloadRdy: bool)

  function ResetState(n: nat): Search { Search(-1, n, seq(n + 1, _ => 0), 0, false) }

  /** The variables keep to their ranges for `n` FIFOs. */
  predicate Valid(s: Search, n: nat) { |s.used| == n + 1 && -1 <= s.step <= n && s.fullest <= n }

  /** Chosen on sight: high priority and at its threshold, or flagged for flushing. */
  predicate Urgent(used: nat, v: View) { (v.enable && v.priority && used >= v.minSize) || v.flush }

  /** Enabled and at its threshold. */
  predicate Eligible(used: nat, v: View) { v.enable && used >= v.minSize }

  /** One rising edge. */
  function Step(s: Search, vs: seq<View>, txBusy: bool): (r: Search)
    requires Valid(s, |vs|)
    ensures Valid(r, |vs|)
  {
    var n := |vs|;
    if s.step == -1 then
      s.(step := 0, fullest := n,
         used := seq(n + 1, k requires 0 <= k < n + 1 => if k < n then vs[k].used else 0))
    else if s.step == n then
      if s.fullest != n && !txBusy then s.(step := -1, muxSel := s.fullest, payloadRdy := true)
      else s.(step := -1, payloadRdy := false)
    else
      var v, u := vs[s.step], s.used[s.step];
      if Urgent(u, v) then s.(step := n, fullest := s.step)
      else if Eligible(u, v) && s.used[s.fullest] < u then s.(step := s.step + 1, fullest := s.step)
      else s.(step := s.step + 1)
  }

  /** The clocked process. */
  class FifoSearch {
    const n: nat
    var regs: Search

    constructor (n: nat)
      ensures this.n == n && regs == ResetState(n) && Valid(regs, n)
    {
      this.n := n;
      regs := ResetState(n);
    }

    method Tick(vs: seq<View>, txBusy: bool)
      requires |vs| == n && Valid(regs, n)
      modifies this
      ensures Valid(regs, n) && regs == Step(old(regs), vs, txBusy)
    {
      var s := regs;
      var step, fullest, used, muxSel, payloadRdy := s.step, s.fullest, s.used, s.muxSel, s.payloadRdy;
      if step == -1 {
        used := Snapshot(vs);
        fullest := n;
      } else if step == n {
        if fullest != n {
          if !txBusy {
            muxSel, payloadRdy := fullest, true;
          } else {
            payloadRdy := false;
          }
        } else {
          payloadRdy := false;
        }
      } else {
        if (vs[step].enable && vs[step].priority && used[step] >= vs[step].minSize) || vs[step].flush {
          fullest := step;
          step := n - 1;  // go to the end: 1 is added below
        } else if vs[step].enable && used[fullest] < used[step] && used[step] >= vs[step].minSize {
          fullest := step;
        }
      }
      if step >= n {
        step := -1;
      } else {
        step := step + 1;
      }
      regs := Search(step, fullest, used, muxSel, payloadRdy);
    }

    /** Copies the fill levels at the start of a search; the extra last entry is 0. */
    method Snapshot(vs: seq<View>) returns (used: seq<nat>)
      ensures used == seq(|vs| + 1, k requires 0 <= k < |vs| + 1 => if k < |vs| then vs[k].used else 0)
    {
      used := [];
      for k := 0 to |vs|
        invariant |used| == k && forall j :: 0 <= j < k ==> used[j] == vs[j].used
      {
        used := used + [vs[k].used];
      }
      used := used + [0];
    }
  }

  // -- what a search finds

  /** A search: the levels as copied by its first edge, and FIFO k's view at the edge that
      looks at it (inputs that stay put all the while are a special case). */
  datatype Scan = Scan(used: seq<nat>, seen: seq<View>)

  predicate Shape(q: Scan) { |q.used| == |q.seen| }

  /** High priority and at its threshold, or flagged for flushing. */
  predicate IsUrgent(q: Scan, k: nat)
    requires Shape(q)
  {
    k < |q.seen| && ((q.seen[k].enable && q.seen[k].priority && q.used[k] >= q.seen[k].minSize) || q.seen[k].flush)
  }

  /** A candidate of the ordinary kind: enabled, at its threshold, and not empty. */
  predicate IsCandidate(q: Scan, k: nat)
    requires Shape(q)
  {
    k < |q.seen| && q.seen[k].enable && q.used[k] >= q.seen[k].minSize && q.used[k] > 0
  }

  /** `c` is the lowest-index fullest candidate among the first `m` FIFOs, or `none`. */
  predicate IsFullest(q: Scan, m: nat, c: nat, none: nat)
    requires Shape(q) && m <= |q.used|
  {
    if c == none then forall k :: 0 <= k < m ==> !IsCandidate(q, k)
    else
      && c < m && IsCandidate(q, c)
      && (forall k :: 0 <= k < m && IsCandidate(q, k) ==> q.used[k] <= q.used[c])
      && (forall k :: 0 <= k < c && IsCandidate(q, k) ==> q.used[k] < q.used[c])
  }

  /** The choice the search is meant to make. */
  predicate IsChoice(q: Scan, c: nat)
    requires Shape(q)
  {
    var n := |q.seen|;
    if c < n && IsUrgent(q, c) then forall k :: 0 <= k < c ==> !IsUrgent(q, k)
    else (forall k :: 0 <= k < n ==> !IsUrgent(q, k)) && IsFullest(q, n, c, n)
  }

  /** The views the search's edges see: `ins[k + 1]` is what the edge looking at FIFO k sees. */
  function ScanOf(ins: seq<seq<View>>): (q: Scan)
    requires ins != [] && forall j :: 0 <= j < |ins| ==> |ins[j]| == |ins| - 2
    ensures Shape(q) && |q.seen| == |ins| - 2
    ensures forall k :: 0 <= k < |ins| - 2 ==> q.used[k] == ins[0][k].used && q.seen[k] == ins[k + 1][k]
  {
    var n := |ins| - 2;
    if n < 0 then Scan([], [])
    else Scan(seq(n, k requires 0 <= k < n => ins[0][k].used), seq(n, k requires 0 <= k < n => ins[k + 1][k]))
  }

  /** State after the first `m` edges of a search. */
  ghost function After(s: Search, ins: seq<seq<View>>, txBusy: bool, m: nat): (r: Search)
    requires |ins| >= 2 && (forall j :: 0 <= j < |ins| ==> |ins[j]| == |ins| - 2)
    requires m <= |ins| && Valid(s, |ins| - 2)
    ensures Valid(r, |ins| - 2)
  {
    if m == 0 then s else Step(After(s, ins, txBusy, m - 1), ins[m - 1], txBusy)
  }

  /** As long as no urgent FIFO has turned up, one FIFO is examined per edge and the fullest
      candidate so far is remembered. */
  lemma {:induction false} Examine(s: Search, ins: seq<seq<View>>, txBusy: bool, m: nat)
    requires |ins| >= 2 && (forall j :: 0 <= j < |ins| ==> |ins[j]| == |ins| - 2)
    requires Valid(s, |ins| - 2) && s.step == -1 && m <= |ins| - 2
    requires forall k :: 0 <= k < m ==> !IsUrgent(ScanOf(ins), k)
    ensures var t, q, n := After(s, ins, txBusy, m + 1), ScanOf(ins), |ins| - 2;
            && t.step == m && t.used[n] == 0 && (forall k :: 0 <= k < n ==> t.used[k] == q.used[k])
            && IsFullest(q, m, t.fullest, n) && t.muxSel == s.muxSel && t.payloadRdy == s.payloadRdy
  {
    hide Step, After, ScanOf, IsFullest, IsUrgent;
    Unfold(s, ins, txBusy, m + 1);
    if m == 0 {
      FirstEdge(s, ins[0], txBusy, ScanOf(ins));
    } else {
      Examine(s, ins, txBusy, m - 1);
      ExamineOne(After(s, ins, txBusy, m), ins[m], txBusy, ScanOf(ins), m - 1);
    }
  }

  lemma Unfold(s: Search, ins: seq<seq<View>>, txBusy: bool, m: nat)
    requires |ins| >= 2 && (forall j :: 0 <= j < |ins| ==> |ins[j]| == |ins| - 2)
    requires 0 < m <= |ins| && Valid(s, |ins| - 2)
    ensures After(s, ins, txBusy, m) == Step(After(s, ins, txBusy, m - 1), ins[m - 1], txBusy)
    ensures After(s, ins, txBusy, 0) == s
  {
    hide Step;
  }

  lemma FirstEdge(s: Search, vs: seq<View>, txBusy: bool, q: Scan)
    requires Shape(q) && |q.seen| == |vs| && Valid(s, |vs|) && s.step == -1
    requires forall k :: 0 <= k < |vs| ==> q.used[k] == vs[k].used
    ensures var t, n := Step(s, vs, txBusy), |vs|;
            && t.step == 0 && t.used[n] == 0 && (forall k :: 0 <= k < n ==> t.used[k] == q.used[k])
            && IsFullest(q, 0, t.fullest, n) && t.muxSel == s.muxSel && t.payloadRdy == s.payloadRdy
  {
  }

  lemma ExamineOne(t: Search, vs: seq<View>, txBusy: bool, q: Scan, m: nat)
    requires Shape(q) && |q.seen| == |vs| && Valid(t, |vs|) && m < |vs| && t.step == m && q.seen[m] == vs[m]
    requires t.used[|vs|] == 0 && (forall k :: 0 <= k < |vs| ==> t.used[k] == q.used[k])
    requires IsFullest(q, m, t.fullest, |vs|) && !IsUrgent(q, m)
    ensures var r := Step(t, vs, txBusy);
            && r.step == m + 1 && r.used == t.used && IsFullest(q, m + 1, r.fullest, |vs|)
            && r.muxSel == t.muxSel && r.payloadRdy == t.payloadRdy
  {
  }

  /** Index of the edge that decides: right after the first urgent FIFO, or after the last one. */
  ghost function DecisionEdge(q: Scan, k: nat): (m: nat)
    requires Shape(q) && k <= |q.seen|
    ensures k < m <= |q.seen| + 1
    decreases |q.seen| - k
  {
    if k == |q.seen| then k + 1 else if IsUrgent(q, k) then k + 2 else DecisionEdge(q, k + 1)
  }

  /** FIFO choice: a search of at most n + 2 edges ends with the selector on the lowest-index
      urgent FIFO if there is one, else on the lowest-index fullest candidate, and payload-ready
      high, when the transmitter is free; otherwise the selector stays where it was. */
  lemma FifoChoice(s: Search, ins: seq<seq<View>>, txBusy: bool) returns (c: nat)
    requires |ins| >= 2 && (forall j :: 0 <= j < |ins| ==> |ins[j]| == |ins| - 2)
    requires Valid(s, |ins| - 2) && s.step == -1
    ensures IsChoice(ScanOf(ins), c)
    ensures var n := |ins| - 2;
            var t := After(s, ins, txBusy, DecisionEdge(ScanOf(ins), 0) + 1);
            && t.step == -1
            && t.payloadRdy == (c < n && !txBusy)
            && t.muxSel == if c < n && !txBusy then c else s.muxSel
  {
    c := Decide(s, ins, txBusy, 0);
  }

  lemma {:induction false} Decide(s: Search, ins: seq<seq<View>>, txBusy: bool, k: nat) returns (c: nat)
    requires |ins| >= 2 && (forall j :: 0 <= j < |ins| ==> |ins[j]| == |ins| - 2)
    requires Valid(s, |ins| - 2) && s.step == -1 && k <= |ins| - 2
    requires forall j :: 0 <= j < k ==> !IsUrgent(ScanOf(ins), j)
    ensures IsChoice(ScanOf(ins), c)
    ensures var n := |ins| - 2;
            var t := After(s, ins, txBusy, DecisionEdge(ScanOf(ins), k) + 1);
            && t.step == -1 && t.payloadRdy == (c < n && !txBusy)
            && t.muxSel == if c < n && !txBusy then c else s.muxSel
    decreases |ins| - k
  {
    hide Step, After, ScanOf, IsFullest, IsUrgent, IsChoice;
    var q, n := ScanOf(ins), |ins| - 2;
    Examine(s, ins, txBusy, k);
    var t := After(s, ins, txBusy, k + 1);
    Unfold(s, ins, txBusy, k + 2);
    if k == n {
      c := t.fullest;
      DecideEdge(t, ins[k + 1], txBusy, q);
    } else if IsUrgent(q, k) {
      c := k;
      UrgentEdge(t, ins[k + 1], txBusy, q);
      Unfold(s, ins, txBusy, k + 3);
      DecideEdge(Step(t, ins[k + 1], txBusy), ins[k + 2], txBusy, q);
    } else {
      c := Decide(s, ins, txBusy, k + 1);
    }
  }

  /** Until the deciding edge, payload-ready and the selector stay as they were. */
  lemma {:induction false} QuietUntil(s: Search, ins: seq<seq<View>>, txBusy: bool, k: nat, m: nat)
    requires |ins| >= 2 && (forall j :: 0 <= j < |ins| ==> |ins[j]| == |ins| - 2)
    requires Valid(s, |ins| - 2) && s.step == -1 && k <= |ins| - 2
    requires forall j :: 0 <= j < k ==> !IsUrgent(ScanOf(ins), j)
    requires m <= DecisionEdge(ScanOf(ins), k)
    ensures After(s, ins, txBusy, m).payloadRdy == s.payloadRdy && After(s, ins, txBusy, m).muxSel == s.muxSel
    decreases |ins| - k
  {
    hide Step, After, ScanOf, IsFullest, IsUrgent, IsChoice;
    var q, n := ScanOf(ins), |ins| - 2;
    if m == 0 {
      Unfold(s, ins, txBusy, 1);
    } else if m <= k + 1 {
      Examine(s, ins, txBusy, m - 1);
    } else if IsUrgent(q, k) {
      Examine(s, ins, txBusy, k);
      Unfold(s, ins, txBusy, k + 2);
      UrgentEdge(After(s, ins, txBusy, k + 1), ins[k + 1], txBusy, q);
    } else {
      QuietUntil(s, ins, txBusy, k + 1, m);
    }
  }

  lemma UrgentEdge(t: Search, vs: seq<View>, txBusy: bool, q: Scan)
    requires Shape(q) && |q.seen| == |vs| && Valid(t, |vs|) && 0 <= t.step < |vs| && q.seen[t.step] == vs[t.step]
    requires t.used[t.step] == q.used[t.step] && IsUrgent(q, t.step)
    requires forall j :: 0 <= j < t.step ==> !IsUrgent(q, j)
    ensures var r := Step(t, vs, txBusy);
            r.step == |vs| && r.fullest == t.step && r.muxSel == t.muxSel && r.payloadRdy == t.payloadRdy
    ensures IsChoice(q, t.step)
  {
  }

  lemma DecideEdge(t: Search, vs: seq<View>, txBusy: bool, q: Scan)
    requires Shape(q) && |q.seen| == |vs| && Valid(t, |vs|) && t.step == |vs|
    ensures var r, n := Step(t, vs, txBusy), |vs|;
            && r.step == -1 && r.payloadRdy == (t.fullest < n && !txBusy)
            && r.muxSel == if t.fullest < n && !txBusy then t.fullest else t.muxSel
    ensures (forall k :: 0 <= k < |vs| ==> !IsUrgent(q, k)) && IsFullest(q, |vs|, t.fullest, |vs|) ==> IsChoice(q, t.fullest)
  {
  }

  // ---------------------------------------------------------------------------
  // fifo_in_reg and fifo_full_signaller: the near-full guard of one FIFO
  // ---------------------------------------------------------------------------

  const FIFO_WORDS: nat := 2048

  /** The guard's two registers, the true number of words in the FIFO, and for each past write
      clock whether a word went in. */
  datatype Guard = Guard(nearFull: bool, wrreq: bool, occupied: nat, writes: seq<bool>)

  /** One write clock: the write request, the words read out since the last one, and the fill
      level the guard sees. */
  datatype GuardIn = GuardIn(wr: bool, removed: nat, seen: nat)

  const GUARD_RESET: Guard := Guard(false, false, 0, [])

  /** Bits 10 downto 7 of the fill level are all ones. */
  predicate TopBitsSet(seen: nat) { seen / 0x80 % 0x10 == 0xF }

  function GuardStep(g: Guard, i: GuardIn): Guard {
    var left := if i.removed <= g.occupied then g.occupied - i.removed else 0;
    Guard(TopBitsSet(i.seen), !g.nearFull && i.wr, left + (if g.wrreq then 1 else 0), g.writes + [g.wrreq])
  }

  class NearFullGuard {
    var nearFull: bool
    var wrreq: bool

    constructor ()
      ensures !nearFull && !wrreq
    {
      nearFull, wrreq := false, false;
    }

    method Tick(wr: bool, seen: nat)
      modifies this
      ensures nearFull == TopBitsSet(seen) && wrreq == (!old(nearFull) && wr)
    {
      if nearFull {
        wrreq := false;
      } else {
        wrreq := wr;
      }
      if seen / 0x80 % 0x10 == 0xF {
        nearFull := true;
      } else {
        nearFull := false;
      }
    }
  }

  /** Words written in the last `lag` write clocks. */
  function Recent(writes: seq<bool>, lag: nat): (n: nat)
    ensures n <= lag
  {
    if lag == 0 || writes == [] then 0
    else (if writes[|writes| - 1] then 1 else 0) + Recent(writes[..|writes| - 1], lag - 1)
  }

  /** The level seen is an 11-bit number that misses at most the writes of the last `lag`
      write clocks; the read side takes no more than there is. */
  predicate Plausible(g: Guard, i: GuardIn, lag: nat) {
    i.removed <= g.occupied && i.seen < FIFO_WORDS && g.occupied <= i.seen + Recent(g.writes, lag)
  }

  ghost function GuardRun(ins: seq<GuardIn>): Guard {
    if ins == [] then GUARD_RESET else GuardStep(GuardRun(ins[..|ins| - 1]), ins[|ins| - 1])
  }

  ghost predicate PlausibleRun(ins: seq<GuardIn>, lag: nat) {
    ins == [] || (PlausibleRun(ins[..|ins| - 1], lag) && Plausible(GuardRun(ins[..|ins| - 1]), ins[|ins| - 1], lag))
  }

  /** The flag is up exactly when the level seen at the clock before was 1920 or more, and a word
      offered is passed on to the FIFO exactly when the flag was down. */
  lemma GuardExactly(g: Guard, i: GuardIn)
    requires i.seen < 2048
    ensures GuardStep(g, i).nearFull <==> i.seen >= 1920
    ensures GuardStep(g, i).wrreq <==> i.wr && !g.nearFull
  {
  }

  /** As long as the level seen stays below 1920, no word offered is dropped: each enters the FIFO one
      clock later. */
  lemma {:induction false} NothingDropped(ins: seq<GuardIn>)
    requires forall k :: 0 <= k < |ins| ==> ins[k].seen < 1920
    ensures var g := GuardRun(ins);
            && !g.nearFull && |g.writes| == |ins| && g.wrreq == (ins != [] && ins[|ins| - 1].wr)
            && forall k :: 0 <= k < |ins| ==> (g.writes[k] <==> k > 0 && ins[k - 1].wr)
  {
    if ins != [] {
      NothingDropped(ins[..|ins| - 1]);
      GuardExactly(GuardRun(ins[..|ins| - 1]), ins[|ins| - 1]);
    }
  }

  lemma GuardEdge(g: Guard, i: GuardIn, lag: nat)
    requires Plausible(g, i, lag) && g.occupied <= 1922 + lag
    requires (g.wrreq ==> g.occupied <= 1921 + lag) && (!g.nearFull ==> g.occupied <= 1920 + lag)
    ensures var h := GuardStep(g, i);
            && h.occupied <= 1922 + lag
            && (h.wrreq ==> h.occupied <= 1921 + lag) && (!h.nearFull ==> h.occupied <= 1920 + lag)
  {
    hide Recent;
    assert i.seen >= 1920 ==> TopBitsSet(i.seen);
  }

  /** No FIFO overflow: in every plausible run the true occupancy stays within 1920 + lag + 2. */
  lemma {:induction false} NoOverflow(ins: seq<GuardIn>, lag: nat)
    requires PlausibleRun(ins, lag)
    ensures var g := GuardRun(ins);
            && g.occupied <= 1922 + lag
            && (g.wrreq ==> g.occupied <= 1921 + lag) && (!g.nearFull ==> g.occupied <= 1920 + lag)
    ensures lag <= 125 ==> GuardRun(ins).occupied < FIFO_WORDS
  {
    hide GuardStep, Plausible;
    if ins != [] {
      NoOverflow(ins[..|ins| - 1], lag);
      GuardEdge(GuardRun(ins[..|ins| - 1]), ins[|ins| - 1], lag);
    }
  }

  /** A writer that never pauses, no reader, and a level that lags as much as it may. */
  function FloodIn(lag: nat, k: nat): GuardIn {
    GuardIn(true, 0, if k <= 1 + lag then 0 else k - 1 - lag)
  }

  function Flood(lag: nat, n: nat): (ins: seq<GuardIn>)
    ensures |ins| == n && (n > 0 ==> ins[n - 1] == FloodIn(lag, n - 1) && ins[..n - 1] == Flood(lag, n - 1))
  {
    if n == 0 then [] else Flood(lag, n - 1) + [FloodIn(lag, n - 1)]
  }

  /** A first clock without a write, then only writes. */
  function Steady(n: nat): (ws: seq<bool>)
    ensures |ws| == n
  {
    if n == 0 then [] else Steady(n - 1) + [n > 1]
  }

  lemma RecentAppend(ws: seq<bool>, b: bool, lag: nat)
    requires lag > 0
    ensures Recent(ws + [b], lag) == (if b then 1 else 0) + Recent(ws, lag - 1)
  {
    assert (ws + [b])[..|ws|] == ws;
  }

  lemma SteadyFacts(n: nat, lag: nat)
    ensures n == 0 || lag == 0 ==> Recent(Steady(n), lag) == 0
    ensures n > 0 ==> Steady(n) == Steady(n - 1) + [n > 1]
  {
  }

  lemma {:induction false} RecentSteady(n: nat, lag: nat)
    ensures Recent(Steady(n), lag) == if n == 0 then 0 else if n - 1 <= lag then n - 1 else lag
  {
    hide *;
    SteadyFacts(n, lag);
    if n > 0 && lag > 0 {
      RecentSteady(n - 1, lag - 1);
      RecentAppend(Steady(n - 1), n > 1, lag);
    }
  }

  /** The flood, clock by clock: the near-full flag goes up two clocks before the writes stop. */
  function Flooded(lag: nat, n: nat): Guard {
    Guard(n > 1921 + lag, n > 0, if n == 0 then 0 else n - 1, Steady(n))
  }

  lemma FloodEdge(lag: nat, n: nat)
    requires n <= 1922 + lag && lag <= 126
    ensures Plausible(Flooded(lag, n), FloodIn(lag, n), lag)
    ensures n < 1922 + lag ==> GuardStep(Flooded(lag, n), FloodIn(lag, n)) == Flooded(lag, n + 1)
    ensures n == 1922 + lag ==> GuardStep(Flooded(lag, n), FloodIn(lag, n)).occupied == 1922 + lag
  {
    hide Recent;
    RecentSteady(n, lag);
  }

  lemma {:induction false} FloodRun(lag: nat, n: nat)
    requires n <= 1922 + lag && lag <= 126
    ensures PlausibleRun(Flood(lag, n), lag) && GuardRun(Flood(lag, n)) == Flooded(lag, n)
  {
    hide Plausible, GuardStep, Flooded, FloodIn;
    if n == 0 {
      FloodStart(lag);
    } else {
      FloodRun(lag, n - 1);
      FloodEdge(lag, n - 1);
    }
  }

  lemma FloodStart(lag: nat)
    ensures Flooded(lag, 0) == GUARD_RESET && Flood(lag, 0) == []
  {
  }

  /** The bound is reached, so 125 is exactly the lag the guard can stand: at 126 a run puts 2048
      words in a FIFO whose level counter stops at 2047. */
  lemma OverflowBoundIsTight(lag: nat)
    requires lag <= 126
    ensures exists ins: seq<GuardIn> :: PlausibleRun(ins, lag) && GuardRun(ins).occupied == 1922 + lag
  {
    hide Plausible, GuardStep, Flooded, FloodIn;
    var n := 1922 + lag;
    FloodRun(lag, n);
    FloodEdge(lag, n);
    assert PlausibleRun(Flood(lag, n + 1), lag);
    assert GuardRun(Flood(lag, n + 1)).occupied == 1922 + lag;
  }
}
