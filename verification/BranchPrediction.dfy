/** The branch predictor: target buffer, history register, history table and statistics. */
module BranchPrediction {
  import opened Numbers
  import opened SignedNumbers

  datatype PredictorKind = AlwaysNotTaken | AlwaysTaken | BackwardTaken | Smith1Bit | Smith2Bit | Smith2BitHysteresis {
    predicate IsDynamic() {
      Smith1Bit? || Smith2Bit? || Smith2BitHysteresis?
    }
  }

  datatype BranchKind = Jump | Branch

  datatype State = NotTaken | Taken | StronglyNotTaken | WeaklyNotTaken | WeaklyTaken | StronglyTaken | Undefined {
    predicate PredictsTaken() {
      Taken? || WeaklyTaken? || StronglyTaken?
    }
  }

  datatype Stats = Stats(total: nat, correct: nat, wrong: nat) {
    function Counted(right: bool): Stats {
      if right then Stats(total + 1, correct + 1, wrong) else Stats(total + 1, correct, wrong + 1)
    }

    function Plus(other: Stats): Stats {
      Stats(total + other.total, correct + other.correct, wrong + other.wrong)
    }
  }

  const NO_STATS := Stats(0, 0, 0)

  // ---------------------------------------------------------------- one row of the history table

  /** How a row's state moves on the outcome of a branch. */
  function Next(kind: PredictorKind, state: State, taken: bool): State {
    match kind
    case Smith1Bit => if taken then Taken else NotTaken
    case Smith2Bit =>
      (match state
       case StronglyTaken => if taken then StronglyTaken else WeaklyTaken
       case WeaklyTaken => if taken then StronglyTaken else WeaklyNotTaken
       case WeaklyNotTaken => if taken then WeaklyTaken else StronglyNotTaken
       case StronglyNotTaken => if taken then WeaklyNotTaken else StronglyNotTaken
       case _ => state)
    case Smith2BitHysteresis =>
      (match state
       case StronglyTaken => if taken then StronglyTaken else WeaklyTaken
       case WeaklyTaken => if taken then StronglyTaken else StronglyNotTaken
       case WeaklyNotTaken => if taken then StronglyTaken else StronglyNotTaken
       case StronglyNotTaken => if taken then WeaklyNotTaken else StronglyNotTaken
       case _ => state)
    case _ => state
  }

  predicate ValidState(kind: PredictorKind, state: State) {
    match kind
    case Smith1Bit => state.NotTaken? || state.Taken?
    case Smith2Bit => state.StronglyTaken? || state.WeaklyTaken? || state.WeaklyNotTaken? || state.StronglyNotTaken?
    case Smith2BitHysteresis => state.StronglyTaken? || state.WeaklyTaken? || state.WeaklyNotTaken?
                                || state.StronglyNotTaken?
    case _ => true
  }

  function After(kind: PredictorKind, initial: State, outcomes: seq<bool>): State {
    if outcomes == [] then initial
    else Next(kind, After(kind, initial, outcomes[..|outcomes| - 1]), outcomes[|outcomes| - 1])
  }

  lemma AfterNone(kind: PredictorKind, initial: State)
    ensures After(kind, initial, []) == initial
  {
  }

  lemma {:induction false} AfterValid(kind: PredictorKind, initial: State, outcomes: seq<bool>)
    requires kind.IsDynamic() && ValidState(kind, initial)
    ensures ValidState(kind, After(kind, initial, outcomes))
  {
    if outcomes != [] {
      AfterValid(kind, initial, outcomes[..|outcomes| - 1]);
    }
  }

  /** Whatever happened before, two equal outcomes in a row are what a dynamic predictor predicts next. */
  lemma LastTwoDecide(kind: PredictorKind, initial: State, outcomes: seq<bool>, taken: bool)
    requires kind.IsDynamic() && ValidState(kind, initial)
    requires |outcomes| >= 2 && outcomes[|outcomes| - 1] == outcomes[|outcomes| - 2] == taken
    ensures After(kind, initial, outcomes).PredictsTaken() == taken
  {
    var init := outcomes[..|outcomes| - 1];
    assert init[|init| - 1] == taken;
    AfterValid(kind, initial, init[..|init| - 1]);
  }

  /** With one bit, the last outcome alone decides. */
  lemma LastOneDecides(initial: State, outcomes: seq<bool>)
    requires outcomes != []
    ensures After(Smith1Bit, initial, outcomes).PredictsTaken() == outcomes[|outcomes| - 1]
  {
  }

  /** The states of the two-bit predictor as a counter. */
  function Level(state: State): nat {
    match state
    case StronglyTaken => 3
    case WeaklyTaken => 2
    case WeaklyNotTaken => 1
    case _ => 0
  }

  /** Counts taken branches up and the others down, between 0 and 3. */
  function Saturated(start: nat, outcomes: seq<bool>): int {
    if outcomes == [] then start
    else
      var n := Saturated(start, outcomes[..|outcomes| - 1]);
      if outcomes[|outcomes| - 1] then if n < 3 then n + 1 else n else if n > 0 then n - 1 else n
  }

  /** With two bits, the prediction is the upper half of a saturating counter of the outcomes. */
  lemma {:induction false} TwoBitsCount(initial: State, outcomes: seq<bool>)
    requires ValidState(Smith2Bit, initial)
    ensures Level(After(Smith2Bit, initial, outcomes)) == Saturated(Level(initial), outcomes)
    ensures After(Smith2Bit, initial, outcomes).PredictsTaken() <==> Saturated(Level(initial), outcomes) >= 2
  {
    AfterValid(Smith2Bit, initial, outcomes);
    if outcomes != [] {
      var init := outcomes[..|outcomes| - 1];
      AfterValid(Smith2Bit, initial, init);
      TwoBitsCount(initial, init);
    }
  }

  /** With hysteresis, the prediction after one outcome more is that outcome if it repeats the last, else as before. */
  lemma HysteresisRepeats(initial: State, outcomes: seq<bool>, taken: bool)
    requires ValidState(Smith2BitHysteresis, initial) && outcomes != []
    ensures After(Smith2BitHysteresis, initial, outcomes + [taken]).PredictsTaken()
            == if taken == outcomes[|outcomes| - 1] then taken
               else After(Smith2BitHysteresis, initial, outcomes).PredictsTaken()
  {
    hide Next;
    var last := outcomes[|outcomes| - 1];
    var before := After(Smith2BitHysteresis, initial, outcomes[..|outcomes| - 1]);
    AfterValid(Smith2BitHysteresis, initial, outcomes[..|outcomes| - 1]);
    AfterOneMore(Smith2BitHysteresis, initial, outcomes, taken);
    TwoMoves(before, last, taken);
  }

  lemma TwoMoves(state: State, last: bool, taken: bool)
    requires ValidState(Smith2BitHysteresis, state)
    ensures
      var moved := Next(Smith2BitHysteresis, state, last);
      Next(Smith2BitHysteresis, moved, taken).PredictsTaken() == if taken == last then taken else moved.PredictsTaken()
  {
  }

  lemma AfterOneMore(kind: PredictorKind, initial: State, outcomes: seq<bool>, taken: bool)
    ensures After(kind, initial, outcomes + [taken]) == Next(kind, After(kind, initial, outcomes), taken)
  {
    assert (outcomes + [taken])[..|outcomes|] == outcomes;
  }

  // ---------------------------------------------------------------- indices

  const MAX_BITS := 8
  const TWO_16 := 0x1_0000

  function Clamped(bits: nat): nat {
    if bits > MAX_BITS then MAX_BITS else bits
  }

  /** The history register keeps its `bits` low bits, except that at full width it is not masked to them. */
  function HistoryNext(value: nat, bits: nat, taken: bool): nat {
    var pushed := (2 * value + if taken then 1 else 0) % TWO_16;
    if bits >= MAX_BITS then pushed else pushed % Pow2(bits)
  }

  /** History above address bits; the two parts do not share bits. */
  function TableIndex(history: nat, addressBits: nat, pc: nat): nat {
    history * Pow2(addressBits) % TWO_16 + pc / 4 % TWO_16 % Pow2(addressBits)
  }

  function BufferIndex(bits: nat, pc: nat): nat {
    pc / 4 % TWO_16 % Pow2(bits)
  }

  lemma BufferIndexInRange(bits: nat, pc: nat)
    ensures BufferIndex(bits, pc) < Pow2(bits)
  {
  }

  lemma PartsFit(history: nat, rows: nat, a: nat, low: nat)
    requires history < rows && low < a
    ensures history * a % TWO_16 + low < rows * a
  {
    assert (history + 1) * a <= rows * a;
    assert (history + 1) * a == history * a + a;
    RemainderBound(history * a);
  }

  lemma RemainderBound(x: nat)
    ensures x % TWO_16 <= x
  {
  }

  lemma TableIndexInRange(history: nat, historyBits: nat, addressBits: nat, pc: nat)
    requires history < Pow2(historyBits)
    ensures TableIndex(history, addressBits, pc) < Pow2(historyBits + addressBits)
  {
    hide Pow2;
    Pow2Adds(historyBits, addressBits);
    PartsFit(history, Pow2(historyBits), Pow2(addressBits), pc / 4 % TWO_16 % Pow2(addressBits));
  }

  lemma HistoryInRange(value: nat, bits: nat, taken: bool)
    requires bits < MAX_BITS
    ensures HistoryNext(value, bits, taken) < Pow2(bits)
  {
  }

  /** The history register shifts in the outcome below its old bits, of which it keeps those it has room for. */
  lemma HistoryBits(value: nat, bits: nat, taken: bool, i: nat)
    ensures BitOf(HistoryNext(value, bits, taken), i)
            <==> i < 16 && (bits < MAX_BITS ==> i < bits) && if i == 0 then taken else BitOf(value, i - 1)
  {
    hide BitOf, Pow2;
    var pushed := 2 * value + if taken then 1 else 0;
    Pow2Bytes();
    BitOfSum(pushed, value, taken, i);
    BitOfRemainder(pushed, 16, i);
    BitOfRemainder(pushed % TWO_16, bits, i);
  }

  lemma AddressPart(bits: nat, pc: nat, i: nat)
    ensures BitOf(pc / 4 % TWO_16 % Pow2(bits), i) <==> i < bits && i < 16 && BitOf(pc, i + 2)
  {
    hide BitOf, Pow2;
    Pow2Bytes();
    BitOfQuarter(pc, i);
    BitOfRemainder(pc / 4, 16, i);
    BitOfRemainder(pc / 4 % TWO_16, bits, i);
  }

  /** The target buffer is indexed by the low bits of the instruction's word address. */
  lemma BufferIndexBits(bits: nat, pc: nat, i: nat)
    ensures BitOf(BufferIndex(bits, pc), i) <==> i < bits && i < 16 && BitOf(pc, i + 2)
  {
    hide BitOf, Pow2;
    AddressPart(bits, pc, i);
  }

  lemma ShiftedHistory(history: nat, bits: nat, q: nat)
    requires bits + q == 16
    ensures history * Pow2(bits) % TWO_16 == history % Pow2(q) * Pow2(bits)
  {
    Pow2Bytes();
    Pow2Adds(bits, q);
    ScaledRemainder(history, Pow2(bits), Pow2(q));
  }

  /** The history table is indexed by the history above the low bits of the instruction's word address. */
  lemma TableIndexBits(history: nat, addressBits: nat, pc: nat, i: nat)
    requires addressBits <= MAX_BITS
    ensures BitOf(TableIndex(history, addressBits, pc), i)
            <==> i < 16 && if i < addressBits then BitOf(pc, i + 2) else BitOf(history, i - addressBits)
  {
    hide BitOf, Pow2;
    var q := 16 - addressBits;
    ShiftedHistory(history, addressBits, q);
    BitOfJoined(history % Pow2(q), addressBits, pc / 4 % TWO_16 % Pow2(addressBits), i);
    AddressPart(addressBits, pc, i);
    if i >= addressBits {
      BitOfRemainder(history, q, i - addressBits);
    }
  }

  // ---------------------------------------------------------------- the predictor object

  datatype Row = Row(state: State, stats: Stats)

  datatype Entry = NoEntry | Entry(pc: nat, target: nat, kind: BranchKind)

  /** What was last recorded at place `i` of a target buffer with `bits` index bits. */
  function LastAt(bits: nat, recorded: seq<Entry>, i: nat): Entry {
    if recorded == [] then NoEntry
    else
      var last := recorded[|recorded| - 1];
      if last.Entry? && BufferIndex(bits, last.pc) == i then last
      else LastAt(bits, recorded[..|recorded| - 1], i)
  }

  lemma LastAtOneMore(bits: nat, recorded: seq<Entry>, e: Entry, i: nat)
    requires e.Entry?
    ensures LastAt(bits, recorded + [e], i)
         == if BufferIndex(bits, e.pc) == i then e else LastAt(bits, recorded, i)
  {
    assert (recorded + [e])[..|recorded|] == recorded;
  }

  /** Record `k` went to place `i`, and none after it did. */
  ghost predicate Latest(bits: nat, recorded: seq<Entry>, k: nat, i: nat) {
    && k < |recorded| && recorded[k].Entry? && BufferIndex(bits, recorded[k].pc) == i
    && forall j :: k < j < |recorded| && recorded[j].Entry? ==> BufferIndex(bits, recorded[j].pc) != i
  }

  lemma {:induction false} LastAtIs(bits: nat, recorded: seq<Entry>, i: nat)
    ensures LastAt(bits, recorded, i).Entry? <==> exists k: nat :: Latest(bits, recorded, k, i)
    ensures forall k: nat :: Latest(bits, recorded, k, i) ==> LastAt(bits, recorded, i) == recorded[k]
  {
    hide BufferIndex;
    if recorded != [] {
      var n := |recorded| - 1;
      var front := recorded[..n];
      LastAtIs(bits, front, i);
      if recorded[n].Entry? && BufferIndex(bits, recorded[n].pc) == i {
        assert Latest(bits, recorded, n, i);
      } else {
        forall k: nat
          ensures Latest(bits, recorded, k, i) <==> Latest(bits, front, k, i)
        {
          if Latest(bits, recorded, k, i) {
            assert k < n && front[k] == recorded[k];
          }
        }
      }
    }
  }

  /** The statistics of the first `n` rows together. */
  function SumOf(rows: seq<Row>, n: nat): Stats
    requires n <= |rows|
  {
    if n == 0 then NO_STATS else SumOf(rows, n - 1).Plus(rows[n - 1].stats)
  }

  lemma {:induction false} SumOfUpdate(rows: seq<Row>, i: nat, row: Row, right: bool, n: nat)
    requires i < |rows| && n <= |rows| && row.stats == rows[i].stats.Counted(right)
    ensures SumOf(rows[i := row], n) == if i < n then SumOf(rows, n).Counted(right) else SumOf(rows, n)
  {
    if n > 0 {
      SumOfUpdate(rows, i, row, right, n - 1);
    }
  }

  lemma {:induction false} SumOfZeros(rows: seq<Row>, n: nat)
    requires n <= |rows| && forall i :: 0 <= i < |rows| ==> rows[i].stats == NO_STATS
    ensures SumOf(rows, n) == NO_STATS
  {
    if n > 0 {
      SumOfZeros(rows, n - 1);
    }
  }

  lemma {:induction false} SumOfSame(rows: seq<Row>, others: seq<Row>, n: nat)
    requires n <= |rows| == |others| && forall i :: 0 <= i < |rows| ==> rows[i].stats == others[i].stats
    ensures SumOf(rows, n) == SumOf(others, n)
  {
    if n > 0 {
      SumOfSame(rows, others, n - 1);
    }
  }

  class BranchPredictor {
    const kind: PredictorKind
    const initial: State
    const historyBits: nat
    const addressBits: nat
    const bufferBits: nat
    const bht: array<Row>
    const btb: array<Entry>
    var history: nat
    var stats: Stats

    /** Outcomes that reached each row, and jumps and branches recorded, oldest first, since the last flush. */
    ghost var outcomes: seq<seq<bool>>
    ghost var recorded: seq<Entry>

    ghost predicate Valid()
      reads this, bht, btb
    {
      && bht.Length == Pow2(historyBits + addressBits) && btb.Length == Pow2(bufferBits)
      && (historyBits < MAX_BITS ==> history < Pow2(historyBits))
      && (kind.IsDynamic() ==> SumOf(bht[..], bht.Length) == stats)
      && RowsFollow() && EntriesRecorded()
    }

    /** Every row's state is what its own outcomes make of the initial state. */
    ghost predicate RowsFollow()
      reads this, bht
    {
      |outcomes| == bht.Length && forall i :: 0 <= i < bht.Length ==> bht[i].state == After(kind, initial, outcomes[i])
    }

    /** Every place of the target buffer holds what was last recorded there. */
    ghost predicate EntriesRecorded()
      reads this, btb
    {
      && (forall k :: 0 <= k < |recorded| ==> recorded[k].Entry?)
      && forall i :: 0 <= i < btb.Length ==> btb[i] == LastAt(bufferBits, recorded, i)
    }

    /** What the direction predictor says of a branch at `pc` with a known target. */
    ghost predicate Direction(pc: nat, target: nat)
      reads this
      requires |outcomes| == bht.Length
    {
      match kind
      case AlwaysNotTaken => false
      case AlwaysTaken => true
      case BackwardTaken => target <= pc
      case _ =>
        var i := TableIndex(history, addressBits, pc);
        i < bht.Length && After(kind, initial, outcomes[i]).PredictsTaken()
    }

    constructor (kind: PredictorKind, initial: State, historyBits: nat, addressBits: nat, bufferBits: nat)
      requires Clamped(historyBits) + Clamped(addressBits) < 16
      ensures Valid() && fresh(bht) && fresh(btb) && stats == NO_STATS && recorded == [] && history == 0
      ensures outcomes == seq(bht.Length, _ => [])
      ensures this.kind == kind && this.initial == initial && this.historyBits == Clamped(historyBits)
      ensures this.addressBits == Clamped(addressBits) && this.bufferBits == Clamped(bufferBits)
    {
      hide SumOf, Pow2, BufferIndex, After;
      this.kind, this.initial := kind, initial;
      this.historyBits, this.addressBits, this.bufferBits :=
        Clamped(historyBits), Clamped(addressBits), Clamped(bufferBits);
      bht := new Row[Pow2(Clamped(historyBits) + Clamped(addressBits))](_ => Row(initial, NO_STATS));
      btb := new Entry[Pow2(Clamped(bufferBits))](_ => NoEntry);
      history, stats := 0, NO_STATS;
      outcomes := seq(Pow2(Clamped(historyBits) + Clamped(addressBits)), _ => []);
      recorded := [];
      new;
      AfterNone(kind, initial);
      SumOfZeros(bht[..], bht.Length);
    }

    method PredictTaken(pc: nat, target: nat) returns (taken: bool)
      requires Valid()
      ensures taken == Direction(pc, target)
    {
      match kind
      case AlwaysNotTaken => taken := false;
      case AlwaysTaken => taken := true;
      case BackwardTaken => taken := target <= pc;
      case _ =>
        var i := TableIndex(history, addressBits, pc);
        taken := i < bht.Length && bht[i].state.PredictsTaken();
    }

    /** The target is followed exactly when the place of `pc` holds it and it is a jump or the direction is taken. */
    method PredictNext(pc: nat) returns (next: nat)
      requires Valid()
      ensures
        var last := LastAt(bufferBits, recorded, BufferIndex(bufferBits, pc));
        var followed := last.Entry? && last.pc == pc && (last.kind == Jump || Direction(pc, last.target));
        next == if followed then last.target else pc + 4
    {
      BufferIndexInRange(bufferBits, pc);
      var entry := btb[BufferIndex(bufferBits, pc)];
      if !entry.Entry? || entry.pc != pc {
        return pc + 4;
      }
      var taken := true;
      if entry.kind == Branch {
        taken := PredictTaken(pc, entry.target);
      }
      return if taken then entry.target else pc + 4;
    }

    /** Which outcome a static predictor expects. */
    function Expected(pc: nat, target: nat): bool {
      kind == AlwaysTaken || (kind == BackwardTaken && target <= pc)
    }

    method RecordTarget(pc: nat, target: nat, branch: BranchKind)
      requires Valid()
      modifies btb, `recorded
      ensures Valid() && recorded == old(recorded) + [Entry(pc, target, branch)]
    {
      hide SumOf, Pow2, BufferIndex, After, LastAt;
      BufferIndexInRange(bufferBits, pc);
      btb[BufferIndex(bufferBits, pc)] := Entry(pc, target, branch);
      recorded := recorded + [Entry(pc, target, branch)];
      forall i | 0 <= i < btb.Length
        ensures btb[i] == LastAt(bufferBits, recorded, i)
      {
        LastAtOneMore(bufferBits, old(recorded), Entry(pc, target, branch), i);
      }
    }

    /** Counts the outcome of a branch at row `i` and moves the row's state. */
    method Learn(i: nat, taken: bool)
      requires Valid() && kind.IsDynamic() && i < bht.Length
      modifies bht, `stats, `outcomes
      ensures Valid() && outcomes == old(outcomes)[i := old(outcomes)[i] + [taken]]
      ensures stats == old(stats).Counted(old(bht[i].state.PredictsTaken()) == taken)
    {
      hide SumOf, Pow2, BufferIndex, After, Next;
      var was := bht[i];
      var right := was.state.PredictsTaken() == taken;
      SumOfUpdate(bht[..], i, Row(Next(kind, was.state, taken), was.stats.Counted(right)), right, bht.Length);
      AfterOneMore(kind, initial, outcomes[i], taken);
      bht[i] := Row(Next(kind, was.state, taken), was.stats.Counted(right));
      stats := stats.Counted(right);
      outcomes := outcomes[i := outcomes[i] + [taken]];
      assert bht[..] == old(bht[..])[i := bht[i]];
    }

    method Update(pc: nat, target: nat, branch: BranchKind, taken: bool)
      requires Valid()
      modifies this, bht, btb
      ensures Valid() && recorded == old(recorded) + [Entry(pc, target, branch)]
              && history == HistoryNext(old(history), historyBits, taken)
      ensures
        var i := TableIndex(old(history), addressBits, pc);
        outcomes == if branch == Branch && kind.IsDynamic() && i < bht.Length
                    then old(outcomes)[i := old(outcomes)[i] + [taken]]
                    else old(outcomes)
      ensures
        var inTable := TableIndex(old(history), addressBits, pc) < bht.Length;
        var counted := branch == Branch && (kind.IsDynamic() ==> inTable);
        stats == if counted then old(stats).Counted(old(Direction(pc, target)) == taken) else old(stats)
    {
      hide SumOf, Pow2, BufferIndex, After, Next, HistoryNext, TableIndex, LastAt;
      RecordTarget(pc, target, branch);
      if branch == Branch {
        if kind.IsDynamic() {
          var i := TableIndex(history, addressBits, pc);
          if i < bht.Length {
            Learn(i, taken);
          }
        } else {
          stats := stats.Counted(taken == Expected(pc, target));
        }
      }
      if historyBits < MAX_BITS {
        HistoryInRange(history, historyBits, taken);
      }
      history := HistoryNext(history, historyBits, taken);
    }

    /** Forgets history, targets and states; the statistics stay. */
    method Flush()
      requires Valid()
      modifies this, bht, btb
      ensures Valid() && stats == old(stats) && recorded == [] && history == 0
      ensures outcomes == seq(bht.Length, _ => [])
    {
      hide SumOf, Pow2, BufferIndex, After;
      history := 0;
      recorded := [];
      forall i | 0 <= i < btb.Length {
        btb[i] := NoEntry;
      }
      forall i | 0 <= i < bht.Length {
        bht[i] := bht[i].(state := initial);
      }
      outcomes := seq(bht.Length, _ => []);
      AfterNone(kind, initial);
      SumOfSame(bht[..], old(bht[..]), bht.Length);
      PowPositive(historyBits);
    }
  }

  lemma PowPositive(n: nat)
    ensures Pow2(n) > 0
  {
  }

  // ---------------------------------------------------------------- every history

  /** The history register after a sequence of outcomes. */
  function Pushed(bits: nat, outcomes: seq<bool>): nat {
    if outcomes == [] then 0 else HistoryNext(Pushed(bits, outcomes[..|outcomes| - 1]), bits, outcomes[|outcomes| - 1])
  }

  lemma PushedInRange(bits: nat, outcomes: seq<bool>)
    requires bits < MAX_BITS
    ensures Pushed(bits, outcomes) < Pow2(bits)
  {
  }

  lemma {:induction false} PushedOnes(outcomes: seq<bool>)
    requires |outcomes| <= 9 && forall k :: 0 <= k < |outcomes| ==> outcomes[k]
    ensures Pushed(MAX_BITS, outcomes) == Pow2(|outcomes|) - 1
  {
    if outcomes != [] {
      var n := |outcomes| - 1;
      PushedOnes(outcomes[..n]);
      Pow2Grows(n + 1, 9);
      PowerOfNine();
    }
  }

  lemma PastTable(addressBits: nat, pc: nat)
    requires addressBits < MAX_BITS
    ensures TableIndex(511, addressBits, pc) >= Pow2(MAX_BITS + addressBits)
  {
    Pow2Adds(MAX_BITS, addressBits);
    Pow2Grows(addressBits, 7);
    assert Pow2(8) == 256 && Pow2(7) == 128;
    assert 511 * Pow2(addressBits) % TWO_16 == 511 * Pow2(addressBits);
  }

  /** Every reachable index lies in the table, for every program, exactly when the history has fewer than eight bits. */
  lemma IndexInTableIff(historyBits: nat, addressBits: nat)
    requires historyBits <= MAX_BITS && addressBits <= MAX_BITS && historyBits + addressBits < 16
    ensures (forall outcomes, pc ::
              TableIndex(Pushed(historyBits, outcomes), addressBits, pc) < Pow2(historyBits + addressBits))
            <==> historyBits < MAX_BITS
  {
    hide TableIndex, Pow2, Pushed;
    if historyBits < MAX_BITS {
      forall outcomes, pc
        ensures TableIndex(Pushed(historyBits, outcomes), addressBits, pc) < Pow2(historyBits + addressBits)
      {
        PushedInRange(historyBits, outcomes);
        TableIndexInRange(Pushed(historyBits, outcomes), historyBits, addressBits, pc);
      }
    } else {
      var ones := seq(9, _ => true);
      PushedOnes(ones);
      assert Pow2(9) == 512 by { PowerOfNine(); }
      PastTable(addressBits, 0);
      assert TableIndex(Pushed(historyBits, ones), addressBits, 0) >= Pow2(historyBits + addressBits);
    }
  }

  lemma PowerOfNine()
    ensures Pow2(9) == 512
  {
    assert Pow2(5) == 32;
  }
}
