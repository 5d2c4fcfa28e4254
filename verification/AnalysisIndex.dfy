/** The streaming build: one pass carrying the last definitions, last writers and last open branch. */
module AnalysisIndex {
  import opened Wrappers
  import opened TraceModel
  import opened DependencyGraph
  import opened DependencySpec
  import opened Sorting

  // ---------- the carried maps ----------

  ghost predicate TracksDefs(trace: Trace, i: nat, regLast: map<string, nat>)
    requires i <= |trace|
  {
    && (forall reg :: reg in regLast ==> LastDef(trace, i, reg) == Some(regLast[reg]))
    && (forall reg :: reg !in regLast ==> LastDef(trace, i, reg) == None)
  }

  ghost predicate TracksWriters(trace: Trace, i: nat, memLast: map<nat, nat>)
    requires i <= |trace|
  {
    && (forall a :: a in memLast ==> LastWriter(trace, i, a) == Some(memLast[a]))
    && (forall a: nat :: a !in memLast ==> LastWriter(trace, i, a) == None)
  }

  /** The edges row `i` has gathered so far: duplicate-free, in discovery order. */
  method PushUnique(row: seq<Edge>, e: Edge) returns (r: seq<Edge>)
    ensures r == if e in row then row else row + [e]
  {
    r := if e in row then row else row + [e];
  }

  method AddressRegs(rec: Rec) returns (regs: set<string>)
    ensures forall reg :: reg in regs <==> IsAddressReg(rec, reg)
  {
    regs := {};
    for k := 0 to |rec.memOps|
      invariant forall reg :: reg in regs <==>
        reg != "" && exists j :: 0 <= j < k && (rec.memOps[j].base == reg || rec.memOps[j].index == reg)
    {
      var op := rec.memOps[k];
      if op.base != "" { regs := regs + {op.base}; }
      if op.index != "" { regs := regs + {op.index}; }
    }
  }

  method StoreSourceRegs(rec: Rec) returns (regs: set<string>)
    ensures forall reg :: reg in regs <==> IsStoreSource(rec, reg)
  {
    regs := {};
    for k := 0 to |rec.memOps|
      invariant forall reg :: reg in regs <==>
        reg != "" && exists j :: 0 <= j < k && rec.memOps[j].isWrite && rec.memOps[j].srcReg == reg
    {
      var op := rec.memOps[k];
      if op.isWrite && op.srcReg != "" { regs := regs + {op.srcReg}; }
    }
  }

  /** Register edges from the first `k` used registers. */
  ghost predicate RegEdgeUpTo(trace: Trace, i: nat, k: nat, e: Edge)
    requires i < |trace| && k <= |trace[i].regsUse|
  {
    exists j :: 0 <= j < k && RegEdgeOf(trace, i, trace[i].regsUse[j], e)
  }

  ghost predicate RegEdgeOf(trace: Trace, i: nat, reg: string, e: Edge)
    requires i < |trace|
  {
    LastDef(trace, i, reg) == Some(e.idx) &&
      ((e.kind == Address && IsAddressReg(trace[i], reg)) || (e.kind == Reg && IsDataReg(trace[i], reg)))
  }

  lemma RegEdgesAll(trace: Trace, i: nat, e: Edge)
    requires i < |trace|
    ensures RegEdgeUpTo(trace, i, |trace[i].regsUse|, e) <==> RegEdge(trace, i, e)
  {
    if reg :| reg in trace[i].regsUse && RegEdgeOf(trace, i, reg, e) {
      var j :| 0 <= j < |trace[i].regsUse| && trace[i].regsUse[j] == reg;
    }
  }

  method RegEdges(trace: Trace, i: nat, regLast: map<string, nat>, row0: seq<Edge>) returns (row: seq<Edge>)
    requires i < |trace| && TracksDefs(trace, i, regLast)
    ensures forall e :: e in row <==> e in row0 || RegEdge(trace, i, e)
  {
    row := row0;
    var rec := trace[i];
    var addressRegs := AddressRegs(rec);
    var dataRegs := StoreSourceRegs(rec);
    for k := 0 to |rec.regsUse|
      invariant forall e :: e in row <==> e in row0 || RegEdgeUpTo(trace, i, k, e)
    {
      var reg := rec.regsUse[k];
      ghost var before := row;
      if reg in regLast {
        var isAddress := reg in addressRegs;
        var isData := reg in dataRegs || !isAddress;
        if isAddress { row := PushUnique(row, Edge(regLast[reg], Address)); }
        if isData { row := PushUnique(row, Edge(regLast[reg], Reg)); }
      }
      forall e ensures e in row <==> e in before || RegEdgeOf(trace, i, reg, e) {}
      forall e ensures RegEdgeUpTo(trace, i, k + 1, e)
        <==> RegEdgeUpTo(trace, i, k, e) || RegEdgeOf(trace, i, reg, e) {}
    }
    forall e ensures RegEdgeUpTo(trace, i, |rec.regsUse|, e) <==> RegEdge(trace, i, e) { RegEdgesAll(trace, i, e); }
  }

  /** Memory edges from the first `k` bytes of one load. */
  method LoadEdges(trace: Trace, i: nat, op: MemOp, memLast: map<nat, nat>, row0: seq<Edge>)
    returns (row: seq<Edge>, hadDef: bool)
    requires i < |trace| && TracksWriters(trace, i, memLast) && op.base != "" && !op.isWrite
    ensures forall e :: e in row <==> e in row0 || LoadEdge(trace, i, op, e)
    ensures hadDef <==> exists a :: LoadsFrom(op, a) && LastWriter(trace, i, a).Some?
  {
    row, hadDef := row0, false;
    for k := 0 to op.size
      invariant forall e :: e in row <==> e in row0 || LoadEdgeUpTo(trace, i, op, k, e)
      invariant hadDef <==> exists j :: 0 <= j < k && LastWriter(trace, i, WrappingAdd(op.addr, j)).Some?
    {
      var a := WrappingAdd(op.addr, k);
      if a in memLast {
        row := PushUnique(row, Edge(memLast[a], Mem));
        hadDef := true;
      }
    }
    forall a | Covers(op.addr, op.size, a) ensures LoadsFrom(op, a) {}
  }

  ghost predicate LoadEdge(trace: Trace, i: nat, op: MemOp, e: Edge)
    requires i < |trace|
  {
    e.kind == Mem && exists a :: LoadsFrom(op, a) && LastWriter(trace, i, a) == Some(e.idx)
  }

  ghost predicate LoadEdgeUpTo(trace: Trace, i: nat, op: MemOp, k: nat, e: Edge)
    requires i < |trace|
  {
    e.kind == Mem && exists j :: 0 <= j < k && LastWriter(trace, i, WrappingAdd(op.addr, j)) == Some(e.idx)
  }

  /** Loads and stores a record performs, and loads of bytes nothing has written yet. */
  predicate IsLoad(op: MemOp) { op.base != "" && !op.isWrite }

  predicate IsStore(op: MemOp) { op.base != "" && op.isWrite }

  ghost predicate IsInitLoad(trace: Trace, i: nat, op: MemOp)
    requires i <= |trace|
  {
    IsLoad(op) && forall a :: LoadsFrom(op, a) ==> LastWriter(trace, i, a) == None
  }

  datatype MemCounts = MemCounts(loads: nat, stores: nat, initLoads: nat)

  ghost function CountOps(trace: Trace, i: nat, k: nat): MemCounts
    requires i < |trace| && k <= |trace[i].memOps|
  {
    if k == 0 then MemCounts(0, 0, 0)
    else
      var c, op := CountOps(trace, i, k - 1), trace[i].memOps[k - 1];
      MemCounts(c.loads + (if IsLoad(op) then 1 else 0), c.stores + (if IsStore(op) then 1 else 0),
                c.initLoads + (if IsInitLoad(trace, i, op) then 1 else 0))
  }

  ghost predicate MemEdgeUpTo(trace: Trace, i: nat, k: nat, e: Edge)
    requires i < |trace| && k <= |trace[i].memOps|
  {
    exists j :: 0 <= j < k && LoadEdge(trace, i, trace[i].memOps[j], e)
  }

  lemma MemEdgesAll(trace: Trace, i: nat, e: Edge)
    requires i < |trace|
    ensures MemEdgeUpTo(trace, i, |trace[i].memOps|, e) <==> MemEdge(trace, i, e)
  {
    if MemEdge(trace, i, e) {
      var op, a :| op in trace[i].memOps && LoadsFrom(op, a) && LastWriter(trace, i, a) == Some(e.idx);
      var j :| 0 <= j < |trace[i].memOps| && trace[i].memOps[j] == op;
      assert LoadEdge(trace, i, op, e);
    }
  }

  method MemEdges(trace: Trace, i: nat, memLast: map<nat, nat>, row0: seq<Edge>)
    returns (row: seq<Edge>, loads: nat, stores: nat, initLoads: nat)
    requires i < |trace| && TracksWriters(trace, i, memLast)
    ensures forall e :: e in row <==> e in row0 || MemEdge(trace, i, e)
    ensures MemCounts(loads, stores, initLoads) == CountOps(trace, i, |trace[i].memOps|)
  {
    row, loads, stores, initLoads := row0, 0, 0, 0;
    var ops := trace[i].memOps;
    for k := 0 to |ops|
      invariant forall e :: e in row <==> e in row0 || MemEdgeUpTo(trace, i, k, e)
      invariant MemCounts(loads, stores, initLoads) == CountOps(trace, i, k)
    {
      var op := ops[k];
      hide LastWriter, Covers, TracksWriters;
      ghost var before := row;
      if op.base == "" {
        forall e ensures !LoadEdge(trace, i, op, e) {}
      } else if op.isWrite {
        stores := stores + 1;
        forall e ensures !LoadEdge(trace, i, op, e) {}
      } else {
        loads := loads + 1;
        var hadDef;
        row, hadDef := LoadEdges(trace, i, op, memLast, row);
        if !hadDef { initLoads := initLoads + 1; }
      }
      forall e ensures MemEdgeUpTo(trace, i, k + 1, e) <==> MemEdgeUpTo(trace, i, k, e) || LoadEdge(trace, i, op, e) {}
    }
    forall e ensures MemEdgeUpTo(trace, i, |ops|, e) <==> MemEdge(trace, i, e) { MemEdgesAll(trace, i, e); }
  }

  /** Sorting by (idx, kind); a repeated edge would be dropped. */
  method SortRow(row: seq<Edge>) returns (sorted: seq<Edge>)
    ensures StrictlyBy(EdgeKey, sorted) && forall e :: e in sorted <==> e in row
  {
    sorted := [];
    for k := 0 to |row|
      invariant StrictlyBy(EdgeKey, sorted) && forall e :: e in sorted <==> e in row[..k]
    {
      var e, p := row[k], |sorted|;
      assert row[..k + 1] == row[..k] + [e];
      while p > 0 && EdgeKey(sorted[p - 1]) > EdgeKey(e)
        invariant 0 <= p <= |sorted| && (p < |sorted| ==> EdgeKey(e) < EdgeKey(sorted[p]))
      {
        p := p - 1;
      }
      if p > 0 && sorted[p - 1] == e { continue; }
      if p > 0 { EdgeKeyInjective(sorted[p - 1], e); }
      InsertAt(EdgeKey, sorted, e, p);
      InsertedMembers(sorted, e, p);
      sorted := Inserted(sorted, e, p);
    }
    assert row[..|row|] == row;
  }

  /** Row `i` from the state carried so far. */
  method BuildRow(trace: Trace, i: nat, regLast: map<string, nat>, memLast: map<nat, nat>, lastCond: Option<nat>)
    returns (row: seq<Edge>, control: bool, loads: nat, stores: nat, initLoads: nat)
    requires i < |trace| && TracksDefs(trace, i, regLast) && TracksWriters(trace, i, memLast)
      && lastCond == LastCond(trace, i)
    ensures IsRow(trace, i, row)
    ensures CountKind(row, Control) == if control then 1 else 0
    ensures MemCounts(loads, stores, initLoads) == CountOps(trace, i, |trace[i].memOps|)
  {
    row, control := [], false;
    if lastCond.Some? {
      LastCondMeans(trace, i, lastCond.value);
      if lastCond.value != i && !trace[i].isCall && !trace[i].isRet {
        row := PushUnique(row, Edge(lastCond.value, Control));
        control := true;
      }
    }
    assert forall e :: e in row <==> ControlEdge(trace, i, e);
    row := RegEdges(trace, i, regLast, row);
    row, loads, stores, initLoads := MemEdges(trace, i, memLast, row);
    row := SortRow(row);
    assert forall e :: e in row <==> RowEdge(trace, i, e);
    assert forall e :: e in row && e.kind == Control ==> ControlEdge(trace, i, e);
    OneControlEdge(row, if lastCond.Some? then lastCond.value else 0);
  }

  method DefineRegs(trace: Trace, i: nat, regLast0: map<string, nat>) returns (regLast: map<string, nat>)
    requires i < |trace| && TracksDefs(trace, i, regLast0)
    ensures TracksDefs(trace, i + 1, regLast)
  {
    regLast := regLast0;
    var defs := trace[i].regsDef;
    for k := 0 to |defs|
      invariant forall reg :: reg in regLast <==> reg in regLast0 || reg in defs[..k]
      invariant forall reg :: reg in regLast ==> regLast[reg] == if reg in defs[..k] then i else regLast0[reg]
    {
      assert defs[..k + 1] == defs[..k] + [defs[k]];
      regLast := regLast[defs[k] := i];
    }
    assert defs[..|defs|] == defs;
  }

  /** The store of one operand, byte by byte. */
  method StoreBytes(i: nat, op: MemOp, memLast0: map<nat, nat>) returns (memLast: map<nat, nat>)
    ensures forall a: nat :: a in memLast <==> a in memLast0 || Covers(op.addr, StoreLength(op), a)
    ensures forall a: nat :: a in memLast ==>
      memLast[a] == if Covers(op.addr, StoreLength(op), a) then i else memLast0[a]
  {
    memLast := memLast0;
    for k := 0 to StoreLength(op)
      invariant forall a: nat :: a in memLast <==> a in memLast0 || Covers(op.addr, k, a)
      invariant forall a: nat :: a in memLast ==> memLast[a] == if Covers(op.addr, k, a) then i else memLast0[a]
    {
      memLast := memLast[WrappingAdd(op.addr, k) := i];
      forall a: nat ensures Covers(op.addr, k + 1, a) <==> Covers(op.addr, k, a) || a == WrappingAdd(op.addr, k) {}
    }
  }

  ghost predicate StoredBy(rec: Rec, k: nat, a: nat)
    requires k <= |rec.memOps|
  {
    exists j :: 0 <= j < k && StoresTo(rec.memOps[j], a)
  }

  method StoreAll(trace: Trace, i: nat, memLast0: map<nat, nat>) returns (memLast: map<nat, nat>)
    requires i < |trace| && TracksWriters(trace, i, memLast0)
    ensures TracksWriters(trace, i + 1, memLast)
  {
    memLast := memLast0;
    var rec := trace[i];
    for k := 0 to |rec.memOps|
      invariant forall a: nat :: a in memLast <==> a in memLast0 || StoredBy(rec, k, a)
      invariant forall a: nat :: a in memLast ==> memLast[a] == if StoredBy(rec, k, a) then i else memLast0[a]
    {
      var op := rec.memOps[k];
      hide Covers, TracksWriters;
      forall a: nat ensures StoredBy(rec, k + 1, a) <==> StoredBy(rec, k, a) || StoresTo(op, a) {}
      if op.base == "" || !op.isWrite { continue; }
      memLast := StoreBytes(i, op, memLast);
    }
    forall a: nat ensures StoredBy(rec, |rec.memOps|, a) <==> Stores(rec, a) {
      if op :| op in rec.memOps && StoresTo(op, a) {
        var j :| 0 <= j < |rec.memOps| && rec.memOps[j] == op;
      }
    }
  }

  // ---------- the whole pass ----------

  datatype Summary = Summary(
    dependencyEdges: nat, regEdges: nat, addressEdges: nat, memEdges: nat, controlEdges: nat,
    memReads: nat, memWrites: nat, initMemLoads: nat, calls: nat, rets: nat, conds: nat)

  ghost predicate RowAt(deps: DependencyIndex, j: nat, row: seq<Edge>) {
    && j + 1 < |deps.rowOffsets|
    && deps.rowOffsets[j] <= deps.rowOffsets[j + 1] <= |deps.edges|
    && deps.edges[deps.rowOffsets[j]..deps.rowOffsets[j + 1]] == row
  }

  /** Rows laid out one after another. */
  ghost predicate IsCsr(deps: DependencyIndex, rows: seq<seq<Edge>>) {
    && |deps.rowOffsets| == |rows| + 1 && deps.rowOffsets[0] == 0 && deps.rowOffsets[|rows|] == |deps.edges|
    && forall j :: 0 <= j < |rows| ==> RowAt(deps, j, rows[j])
  }

  function Appended(deps: DependencyIndex, row: seq<Edge>): DependencyIndex {
    DependencyIndex(deps.rowOffsets + [|deps.edges| + |row|], deps.edges + row)
  }

  lemma RowStays(deps: DependencyIndex, j: nat, old_row: seq<Edge>, row: seq<Edge>)
    requires RowAt(deps, j, old_row)
    ensures RowAt(Appended(deps, row), j, old_row)
  {
    var lo, hi := deps.rowOffsets[j], deps.rowOffsets[j + 1];
    assert (deps.edges + row)[lo..hi] == deps.edges[lo..hi];
  }

  lemma AppendRow(deps: DependencyIndex, rows: seq<seq<Edge>>, row: seq<Edge>)
    requires IsCsr(deps, rows)
    ensures IsCsr(Appended(deps, row), rows + [row])
  {
    var next := Appended(deps, row);
    assert RowAt(next, |rows|, row) by {
      assert (deps.edges + row)[|deps.edges|..|deps.edges| + |row|] == row;
    }
    hide RowAt;
    forall j | 0 <= j < |rows| ensures RowAt(next, j, rows[j]) { RowStays(deps, j, rows[j], row); }
  }

  lemma CsrRows(deps: DependencyIndex, rows: seq<seq<Edge>>, j: nat)
    requires IsCsr(deps, rows)
    ensures deps.Row(j) == if j < |rows| then rows[j] else []
  {
    if j < |rows| { assert RowAt(deps, j, rows[j]); }
  }

  /** The counters that do not concern edges. */
  function RecordPart(s: Summary): Summary {
    s.(dependencyEdges := 0, regEdges := 0, addressEdges := 0, memEdges := 0, controlEdges := 0)
  }

  /** One more record: a call counts as a call only, a return that is no call as a return only. */
  function CountOne(s: Summary, c: MemCounts, r: Rec): Summary {
    s.(memReads := s.memReads + c.loads, memWrites := s.memWrites + c.stores,
      initMemLoads := s.initMemLoads + c.initLoads,
       calls := s.calls + (if r.isCall then 1 else 0),
       rets := s.rets + (if !r.isCall && r.isRet then 1 else 0),
       conds := s.conds + (if !r.isCall && !r.isRet && r.isCond then 1 else 0))
  }

  /** Memory operands and control flow of the first `i` records, counted. */
  ghost function RecordCounts(trace: Trace, i: nat): Summary
    requires i <= |trace|
  {
    if i == 0 then Summary(0, 0, 0, 0, 0, 0, 0, 0, 0, 0, 0)
    else CountOne(RecordCounts(trace, i - 1), CountOps(trace, i - 1, |trace[i - 1].memOps|), trace[i - 1])
  }

  ghost predicate CountsEdges(edges: seq<Edge>, s: Summary) {
    && s.dependencyEdges == |edges|
    && s.regEdges == CountKind(edges, Reg) && s.addressEdges == CountKind(edges, Address)
    && s.memEdges == CountKind(edges, Mem) && s.controlEdges == CountKind(edges, Control)
  }

  /** Tallies one finished row; control edges were counted when the row was started. */
  method TallyRow(ghost edges: seq<Edge>, row: seq<Edge>, s0: Summary, control: bool) returns (s: Summary)
    requires CountsEdges(edges, s0) && CountKind(row, Control) == if control then 1 else 0
    ensures CountsEdges(edges + row, s)
    ensures s == s0.(dependencyEdges := s.dependencyEdges, regEdges := s.regEdges, addressEdges := s.addressEdges,
                     memEdges := s.memEdges, controlEdges := s.controlEdges)
  {
    s := if control then s0.(controlEdges := s0.controlEdges + 1) else s0;
    for k := 0 to |row|
      invariant s.regEdges == CountKind(edges, Reg) + CountKind(row[..k], Reg)
      invariant s.addressEdges == CountKind(edges, Address) + CountKind(row[..k], Address)
      invariant s.memEdges == CountKind(edges, Mem) + CountKind(row[..k], Mem)
      invariant s == s0.(regEdges := s.regEdges, addressEdges := s.addressEdges, memEdges := s.memEdges,
        controlEdges := s.controlEdges)
      invariant s.controlEdges == s0.controlEdges + if control then 1 else 0
    {
      assert row[..k + 1][..k] == row[..k];
      match row[k].kind
      case Reg => s := s.(regEdges := s.regEdges + 1);
      case Address => s := s.(addressEdges := s.addressEdges + 1);
      case Mem => s := s.(memEdges := s.memEdges + 1);
      case Control =>
    }
    assert row[..|row|] == row;
    s := s.(dependencyEdges := s.dependencyEdges + |row|);
    CountKindSplits(edges, row, Reg);
    CountKindSplits(edges, row, Address);
    CountKindSplits(edges, row, Mem);
    CountKindSplits(edges, row, Control);
  }

  /** All the carried state, after the first `i` records. */
  ghost predicate Carried(trace: Trace, i: nat, regLast: map<string, nat>, memLast: map<nat, nat>,
      lastCond: Option<nat>,
                          deps: DependencyIndex, rows: seq<seq<Edge>>, summary: Summary)
    requires i <= |trace|
  {
    && TracksDefs(trace, i, regLast) && TracksWriters(trace, i, memLast) && lastCond == LastCond(trace, i)
    && |rows| == i && IsCsr(deps, rows) && (forall j :: 0 <= j < i ==> IsRow(trace, j, rows[j]))
    && CountsEdges(deps.edges, summary) && RecordPart(summary) == RecordCounts(trace, i)
  }

  /** Counts the record's calls, returns and branches, and moves the open conditional branch on. */
  method Classify(trace: Trace, i: nat, s0: Summary, lastCond0: Option<nat>) returns (s: Summary, lastCond: Option<nat>)
    requires i < |trace| && lastCond0 == LastCond(trace, i)
    ensures lastCond == LastCond(trace, i + 1)
    ensures s == CountOne(s0, MemCounts(0, 0, 0), trace[i])
  {
    var rec := trace[i];
    s, lastCond := s0, lastCond0;
    if rec.isCall {
      s := s.(calls := s.calls + 1);
      lastCond := None;
    } else if rec.isRet {
      s := s.(rets := s.rets + 1);
      lastCond := None;
    } else if rec.isCond {
      s := s.(conds := s.conds + 1);
      lastCond := Some(i);
    }
  }

  lemma {:induction false} CarriedOn(trace: Trace, i: nat, regLast: map<string, nat>, memLast: map<nat, nat>,
      lastCond: Option<nat>,
                  deps: DependencyIndex, rows: seq<seq<Edge>>, summary: Summary, row: seq<Edge>,
                  regLast': map<string, nat>, memLast': map<nat, nat>, lastCond': Option<nat>, summary': Summary)
    requires i < |trace| && Carried(trace, i, regLast, memLast, lastCond, deps, rows, summary)
    requires IsRow(trace, i, row)
    requires TracksDefs(trace, i + 1, regLast') && TracksWriters(trace, i + 1, memLast')
      && lastCond' == LastCond(trace, i + 1)
    requires CountsEdges(deps.edges + row, summary')
    requires RecordPart(summary') == CountOne(RecordPart(summary), CountOps(trace, i, |trace[i].memOps|), trace[i])
    ensures Carried(trace, i + 1, regLast', memLast', lastCond', Appended(deps, row), rows + [row], summary')
  {
    hide IsRow, IsCsr, CountsEdges, CountOne, TracksDefs, TracksWriters, LastCond, CountOps, RecordCounts, RecordPart;
    AppendRow(deps, rows, row);
    CountsStep(trace, i);
  }

  lemma CountsStep(trace: Trace, i: nat)
    requires i < |trace|
    ensures RecordCounts(trace, i + 1) == CountOne(RecordCounts(trace, i), CountOps(trace, i, |trace[i].memOps|),
      trace[i])
  {}

  lemma {:induction false} CarriedMeans(trace: Trace, i: nat, regLast: map<string, nat>, memLast: map<nat, nat>,
      lastCond: Option<nat>,
                     deps: DependencyIndex, rows: seq<seq<Edge>>, summary: Summary)
    requires i <= |trace| && Carried(trace, i, regLast, memLast, lastCond, deps, rows, summary)
    ensures TracksDefs(trace, i, regLast) && TracksWriters(trace, i, memLast) && lastCond == LastCond(trace, i)
    ensures IsCsr(deps, rows) && CountsEdges(deps.edges, summary) && RecordPart(summary) == RecordCounts(trace, i)
    ensures |deps.rowOffsets| == i + 1 && deps.rowOffsets[0] == 0 && deps.rowOffsets[i] == |deps.edges|
    ensures forall j: nat :: j < i ==> IsRow(trace, j, deps.Row(j))
  {
    hide IsRow;
    forall j: nat | j < i ensures IsRow(trace, j, deps.Row(j)) { CsrRows(deps, rows, j); }
  }

  /** One record: its row, then its effect on the carried maps and counters. */
  method Advance(trace: Trace, i: nat, regLast0: map<string, nat>, memLast0: map<nat, nat>, lastCond0: Option<nat>,
                 summary0: Summary, ghost edges: seq<Edge>)
    returns (row: seq<Edge>, regLast: map<string, nat>, memLast: map<nat, nat>, lastCond: Option<nat>, summary: Summary)
    requires i < |trace|
    requires TracksDefs(trace, i, regLast0) && TracksWriters(trace, i, memLast0) && lastCond0 == LastCond(trace, i)
    requires CountsEdges(edges, summary0)
    ensures IsRow(trace, i, row)
    ensures TracksDefs(trace, i + 1, regLast) && TracksWriters(trace, i + 1, memLast)
      && lastCond == LastCond(trace, i + 1)
    ensures CountsEdges(edges + row, summary)
    ensures RecordPart(summary) == CountOne(RecordPart(summary0), CountOps(trace, i, |trace[i].memOps|), trace[i])
  {
    hide IsRow, TracksDefs, TracksWriters, LastCond, CountKind, CountOps;
    var control, loads, stores, initLoads;
    row, control, loads, stores, initLoads := BuildRow(trace, i, regLast0, memLast0, lastCond0);
    summary := TallyRow(edges, row, summary0, control);
    regLast := DefineRegs(trace, i, regLast0);
    memLast := StoreAll(trace, i, memLast0);
    summary := summary.(memReads := summary.memReads + loads, memWrites := summary.memWrites + stores,
                        initMemLoads := summary.initMemLoads + initLoads);
    summary, lastCond := Classify(trace, i, summary, lastCond0);
  }

  method Build(trace: Trace) returns (deps: DependencyIndex, summary: Summary, memLast: map<nat, nat>)
    ensures |deps.rowOffsets| == |trace| + 1
    ensures forall i: nat :: i < |trace| ==> IsRow(trace, i, deps.Row(i))
    ensures deps.rowOffsets[0] == 0 && deps.rowOffsets[|trace|] == |deps.edges|
    ensures CountsEdges(deps.edges, summary) && RecordPart(summary) == RecordCounts(trace, |trace|)
    ensures TracksWriters(trace, |trace|, memLast)
  {
    var regLast: map<string, nat>, lastCond := map[], None;
    memLast := map[];
    summary := Summary(0, 0, 0, 0, 0, 0, 0, 0, 0, 0, 0);
    deps := DependencyIndex([0], []);
    ghost var rows: seq<seq<Edge>> := [];
    assert Carried(trace, 0, regLast, memLast, lastCond, deps, rows, summary);
    hide Carried, IsRow, IsCsr, TracksDefs, TracksWriters, LastCond, CountsEdges, CountOne, CountOps, RecordCounts,
      RecordPart;
    for i := 0 to |trace|
      invariant Carried(trace, i, regLast, memLast, lastCond, deps, rows, summary)
    {
      CarriedMeans(trace, i, regLast, memLast, lastCond, deps, rows, summary);
      ghost var regLast0, memLast0, lastCond0, summary0 := regLast, memLast, lastCond, summary;
      var row;
      row, regLast, memLast, lastCond, summary := Advance(trace, i, regLast, memLast, lastCond, summary, deps.edges);
      CarriedOn(trace, i, regLast0, memLast0, lastCond0, deps, rows, summary0, row, regLast, memLast, lastCond,
        summary);
      deps := DependencyIndex(deps.rowOffsets + [|deps.edges| + |row|], deps.edges + row);
      rows := rows + [row];
    }
    CarriedMeans(trace, |trace|, regLast, memLast, lastCond, deps, rows, summary);
  }
}
