/** The full analysis on disk. */
module AnalysisSidecar {
  import opened Numbers
  import opened Wrappers
  import DependencySpec
  import opened Bytes
  import opened Codecs
  import DependencyGraph

  type DepKind = DependencyGraph.DepKind

  const MAX_BLOB_BYTES: nat := 128 * 1024 * 1024

  function GetKind(bytes: seq<Byte>): Read<DepKind> {
    match GetTag(bytes)
    case Bad => Bad
    case Got(tag, rest) =>
      if tag == 1 then Got(DependencyGraph.Reg, rest)
      else if tag == 2 then Got(DependencyGraph.Address, rest)
      else if tag == 3 then Got(DependencyGraph.Mem, rest)
      else if tag == 4 then Got(DependencyGraph.Control, rest)
      else Bad
  }

  function Kind(): Codec<DepKind> { Codec(kind => [DependencySpec.KindCode(kind)], (len, bytes) => GetKind(bytes)) }

  /** `n` numbers without a length in front: registers, counters. */
  function Fixed(n: nat): Codec<seq<nat>> {
    Codec(values => PutMany(U64(), values), (len, bytes) => GetMany(U64(), len, n, bytes))
  }

  function GetBlob(bytes: seq<Byte>): Read<seq<Byte>> {
    match GetWord(8, bytes)
    case Bad => Bad
    case Got(n, rest) => if n > MAX_BLOB_BYTES || |rest| < n then Bad else Got(rest[..n], rest[n..])
  }

  function Blob(): Codec<seq<Byte>> { Codec((blob: seq<Byte>) => Le(|blob|, 8) + blob, (len, bytes) => GetBlob(bytes)) }

  type Edge = (nat, DepKind)

  type MemLastDef = (nat, (nat, nat))

  /** Index, PC, the 31 general registers, stack pointer and flags. */
  type Checkpoint = (nat, (nat, (seq<nat>, (nat, nat))))

  /** PC, text, and the eight counters in file order. */
  type PcSummary = (nat, (string, seq<nat>))

  /** Entry PC, name if known, and the five counters in file order. */
  type FunctionSummary = (nat, (Option<string>, seq<nat>))

  function EdgeCodec(): Codec<Edge> { Both(U64(), Kind()) }

  function MemLastDefCodec(): Codec<MemLastDef> { Both(U64(), Both(U64(), Unsigned(1))) }

  function CheckpointCodec(): Codec<Checkpoint> { Both(U64(), Both(U64(), Both(Fixed(31), Both(U64(), Unsigned(4))))) }

  function PcSummaryCodec(utf8: Utf8): Codec<PcSummary> { Both(U64(), Both(Text(utf8), Fixed(8))) }

  function FunctionSummaryCodec(utf8: Utf8): Codec<FunctionSummary> {
    Both(U64(), Both(Optional(Text(utf8)), Fixed(5)))
  }

  /** The summary's fifteen counters in file order, and its version. */
  type Summary = (seq<nat>, nat)

  /** What is saved of an analysis, in file order; the call tree travels as opaque text. */
  datatype Analysis = Analysis(
    rowOffsets: seq<nat>,
    edges: seq<Edge>,
    memLastDef: seq<MemLastDef>,
    checkpoints: seq<Checkpoint>,
    summary: Summary,
    pcs: seq<PcSummary>,
    functions: seq<FunctionSummary>,
    callTree: seq<Byte>)

  type NestedTail = (Summary, (seq<PcSummary>, (seq<FunctionSummary>, seq<Byte>)))

  type Nested = (seq<nat>, (seq<Edge>, (seq<MemLastDef>, (seq<Checkpoint>, NestedTail))))

  function Nest(v: Analysis): Nested {
    (v.rowOffsets, (v.edges, (v.memLastDef, (v.checkpoints, (v.summary, (v.pcs, (v.functions, v.callTree)))))))
  }

  function Unnest(n: Nested): Analysis {
    var (rowOffsets, (edges, (memLastDef, (checkpoints, tail)))) := n;
    var (summary, (pcs, (functions, callTree))) := tail;
    Analysis(rowOffsets, edges, memLastDef, checkpoints, summary, pcs, functions, callTree)
  }

  function Body(utf8: Utf8): Codec<Analysis> { As(NestedBody(utf8), n => Unnest(n), v => Nest(v)) }

  function SummaryCodec(): Codec<Summary> { Both(Fixed(15), Unsigned(4)) }

  /** The readers assume 88 bytes for a PC and 57 for a function; the writers may take 80 and 49. */
  function NestedBody(utf8: Utf8): Codec<Nested> {
    Both(Vec(8, U64()), Both(Vec(9, EdgeCodec()), Both(Vec(17, MemLastDefCodec()), Both(Vec(276, CheckpointCodec()),
      Both(SummaryCodec(),
        Both(Vec(88, PcSummaryCodec(utf8)), Both(Vec(57, FunctionSummaryCodec(utf8)), Blob())))))))
  }

  // ---------- the parts ----------

  ghost function Words(n: nat): seq<nat> -> bool { (values: seq<nat>) => |values| == n && All(Word64(), values) }

  lemma FixedExact(n: nat, len: nat)
    requires len < Pow256(8)
    ensures Exact(Fixed(n), len, Words(n), Always<seq<nat>>())
  {
    UnsignedExact(8, len);
    hide Exact, Pow256;
    forall values: seq<nat>, rest: seq<Byte> | Words(n)(values) && |Fixed(n).put(values)| <= len
      ensures Back(Fixed(n), len, values, rest, true)
    {
      ManyBack(U64(), len, Word64(), Always<nat>(), values, rest);
    }
    IsExact(Fixed(n), len, Words(n), Always<seq<nat>>());
  }

  lemma {:induction false} WordsSize(values: seq<nat>)
    ensures |PutMany(U64(), values)| == 8 * |values|
  {
    if |values| > 0 { WordsSize(values[..|values| - 1]); }
  }

  ghost function SmallBlob(): seq<Byte> -> bool { (blob: seq<Byte>) => |blob| <= MAX_BLOB_BYTES }

  lemma BlobBack(len: nat, blob: seq<Byte>, rest: seq<Byte>)
    requires |blob| < Pow256(8)
    ensures Back(Blob(), len, blob, rest, |blob| <= MAX_BLOB_BYTES)
  {
    WordBack(8, |blob|, blob + rest);
    Framed(blob, rest);
    hide Le, GetWord, Pow256;
  }

  lemma BlobExact(len: nat)
    requires len < Pow256(8)
    ensures Exact(Blob(), len, Always<seq<Byte>>(), SmallBlob()) && AtLeast(Blob(), 8)
  {
    hide Pow256, Le;
    forall blob: seq<Byte>, rest: seq<Byte> | Always<seq<Byte>>()(blob) && |Blob().put(blob)| <= len
      ensures Back(Blob(), len, blob, rest, SmallBlob()(blob))
    {
      BlobBack(len, blob, rest);
    }
    IsExact(Blob(), len, Always<seq<Byte>>(), SmallBlob());
  }

  /** Read back as `Exact` says, and never fewer bytes than `min`. */
  ghost predicate Part<T(!new)>(c: Codec<T>, len: nat, dom: T -> bool, ok: T -> bool, min: nat) {
    Exact(c, len, dom, ok) && AtLeastOn(c, dom, min)
  }

  lemma PartBoth<A(!new), B(!new)>(a: Codec<A>, domA: A -> bool, okA: A -> bool, m: nat,
                                   b: Codec<B>, domB: B -> bool, okB: B -> bool, n: nat, len: nat)
    requires Part(a, len, domA, okA, m) && Part(b, len, domB, okB, n)
    ensures Part(Both(a, b), len, Each(domA, domB), Each(okA, okB), m + n)
  {
    BothExact(a, domA, okA, b, domB, okB, len);
    hide Exact;
    forall v: (A, B) | Each(domA, domB)(v) ensures |Both(a, b).put(v)| >= m + n {
      assert |a.put(v.0)| >= m && |b.put(v.1)| >= n;
    }
  }

  lemma PartVec<T(!new)>(assumed: nat, c: Codec<T>, dom: T -> bool, ok: T -> bool, min: nat, len: nat)
    requires Part(c, len, dom, ok, min) && min > 0 && assumed > 0 && len < Pow256(8)
    ensures Part(Vec(assumed, c), len, Every(dom), if assumed == min then Every(ok) else AtMost(len / assumed, ok), 8)
  {
    hide Pow256;
    if assumed == min { CapNeverFires(c, min, dom, ok, len); } else { VecExact(assumed, c, min, dom, ok, len); }
    hide Exact, All;
    forall vs: seq<T> | Every(dom)(vs) ensures |Vec(assumed, c).put(vs)| >= 8 {}
  }

  lemma {:induction false} PartWord(k: nat, len: nat)
    ensures Part(Unsigned(k), len, Below(Pow256(k)), Always<nat>(), k)
  {
    UnsignedExact(k, len);
    hide Exact;
  }

  lemma PartFixed(n: nat, len: nat)
    requires len < Pow256(8)
    ensures Part(Fixed(n), len, Words(n), Always<seq<nat>>(), 8 * n)
  {
    FixedExact(n, len);
    hide Exact;
    forall values: seq<nat> | Words(n)(values) ensures |Fixed(n).put(values)| >= 8 * n { WordsSize(values); }
  }

  lemma PartKind(len: nat)
    ensures Part(Kind(), len, Always<DepKind>(), Always<DepKind>(), 1)
  {}

  lemma PartText(utf8: Utf8, len: nat)
    requires utf8.Faithful() && len < Pow256(8)
    ensures Part(Text(utf8), len, Always<string>(), Short(utf8), 8)
    ensures Part(Optional(Text(utf8)), len, IfAny(Always<string>()), IfAny(Short(utf8)), 1)
  {
    hide Pow256;
    TextExact(utf8, len);
    OptionalExact(Text(utf8), Always<string>(), Short(utf8), len);
    hide Exact;
  }

  function W4(): nat -> bool { Below(Pow256(4)) }

  function EdgeDom(): Edge -> bool { Each(Word64(), Always<DepKind>()) }

  function MemDom(): MemLastDef -> bool { Each(Word64(), Each(Word64(), Below(Pow256(1)))) }

  ghost function CheckpointDom(): Checkpoint -> bool {
    Each(Word64(), Each(Word64(), Each(Words(31), Each(Word64(), W4()))))
  }

  ghost function PcDom(): PcSummary -> bool { Each(Word64(), Each(Always<string>(), Words(8))) }

  ghost function PcOk(utf8: Utf8): PcSummary -> bool { (p: PcSummary) => Short(utf8)(p.1.0) }

  ghost function FunctionDom(): FunctionSummary -> bool { Each(Word64(), Each(IfAny(Always<string>()), Words(5))) }

  ghost function FunctionOk(utf8: Utf8): FunctionSummary -> bool { (f: FunctionSummary) => IfAny(Short(utf8))(f.1.0) }

  lemma SamePart<T(!new)>(c: Codec<T>, len: nat, dom: T -> bool, ok: T -> bool, dom': T -> bool, ok': T -> bool,
      min: nat)
    requires Part(c, len, dom, ok, min)
    requires forall v: T :: dom'(v) ==> dom(v) && ok(v) == ok'(v)
    ensures Part(c, len, dom', ok', min)
  {}

  lemma EdgesPart(len: nat)
    requires len < Pow256(8)
    ensures Part(Vec(9, EdgeCodec()), len, Every(EdgeDom()), Every(Always<Edge>()), 8)
  {
    PartWord(8, len);
    PartKind(len);
    hide Part, Pow256;
    PartBoth(U64(), Word64(), Always<nat>(), 8, Kind(), Always<DepKind>(), Always<DepKind>(), 1, len);
    SamePart(EdgeCodec(), len, EdgeDom(), Each(Always<nat>(), Always<DepKind>()), EdgeDom(), Always<Edge>(), 9);
    PartVec(9, EdgeCodec(), EdgeDom(), Always<Edge>(), 9, len);
  }

  lemma MemPart(len: nat)
    requires len < Pow256(8)
    ensures Part(Vec(17, MemLastDefCodec()), len, Every(MemDom()), Every(Always<MemLastDef>()), 8)
  {
    PartWord(8, len);
    PartWord(1, len);
    hide Part, Pow256;
    var b := Below(Pow256(1));
    PartBoth(U64(), Word64(), Always<nat>(), 8, Unsigned(1), b, Always<nat>(), 1, len);
    PartBoth(U64(), Word64(), Always<nat>(), 8, Both(U64(), Unsigned(1)), Each(Word64(), b),
      Each(Always<nat>(), Always<nat>()), 9, len);
    SamePart(MemLastDefCodec(), len, MemDom(), Each(Always<nat>(), Each(Always<nat>(), Always<nat>())), MemDom(),
      Always<MemLastDef>(), 17);
    PartVec(17, MemLastDefCodec(), MemDom(), Always<MemLastDef>(), 17, len);
  }

  lemma CheckpointsPart(len: nat)
    requires len < Pow256(8)
    ensures Part(Vec(276, CheckpointCodec()), len, Every(CheckpointDom()), Every(Always<Checkpoint>()), 8)
  {
    PartWord(8, len);
    PartWord(4, len);
    PartFixed(31, len);
    hide Part, Pow256;
    var w, a := Word64(), Always<nat>();
    PartBoth(U64(), w, a, 8, Unsigned(4), W4(), a, 4, len);
    var c1, d1, o1 := Both(U64(), Unsigned(4)), Each(w, W4()), Each(a, a);
    PartBoth(Fixed(31), Words(31), Always<seq<nat>>(), 248, c1, d1, o1, 12, len);
    var c2, d2, o2 := Both(Fixed(31), c1), Each(Words(31), d1), Each(Always<seq<nat>>(), o1);
    PartBoth(U64(), w, a, 8, c2, d2, o2, 260, len);
    PartBoth(U64(), w, a, 8, Both(U64(), c2), Each(w, d2), Each(a, o2), 268, len);
    SamePart(CheckpointCodec(), len, CheckpointDom(), Each(a, Each(a, o2)), CheckpointDom(), Always<Checkpoint>(), 276);
    PartVec(276, CheckpointCodec(), CheckpointDom(), Always<Checkpoint>(), 276, len);
  }

  lemma PcsPart(utf8: Utf8, len: nat)
    requires len < Pow256(8) && utf8.Faithful()
    ensures Part(PcSummaryCodec(utf8), len, PcDom(), PcOk(utf8), 80)
    ensures Part(Vec(88, PcSummaryCodec(utf8)), len, Every(PcDom()), AtMost(len / 88, PcOk(utf8)), 8)
  {
    PartWord(8, len);
    PartText(utf8, len);
    PartFixed(8, len);
    hide Part, Pow256;
    PartBoth(Text(utf8), Always<string>(), Short(utf8), 8, Fixed(8), Words(8), Always<seq<nat>>(), 64, len);
    var c1, d1, o1 := Both(Text(utf8), Fixed(8)), Each(Always<string>(), Words(8)),
      Each(Short(utf8), Always<seq<nat>>());
    PartBoth(U64(), Word64(), Always<nat>(), 8, c1, d1, o1, 72, len);
    SamePart(PcSummaryCodec(utf8), len, PcDom(), Each(Always<nat>(), o1), PcDom(), PcOk(utf8), 80);
    PartVec(88, PcSummaryCodec(utf8), PcDom(), PcOk(utf8), 80, len);
  }

  lemma FunctionsPart(utf8: Utf8, len: nat)
    requires len < Pow256(8) && utf8.Faithful()
    ensures Part(FunctionSummaryCodec(utf8), len, FunctionDom(), FunctionOk(utf8), 49)
    ensures Part(Vec(57, FunctionSummaryCodec(utf8)), len, Every(FunctionDom()), AtMost(len / 57, FunctionOk(utf8)), 8)
  {
    PartWord(8, len);
    PartText(utf8, len);
    PartFixed(5, len);
    hide Part, Pow256;
    var t, dt, ot := Optional(Text(utf8)), IfAny(Always<string>()), IfAny(Short(utf8));
    PartBoth(t, dt, ot, 1, Fixed(5), Words(5), Always<seq<nat>>(), 40, len);
    var c1, d1, o1 := Both(t, Fixed(5)), Each(dt, Words(5)), Each(ot, Always<seq<nat>>());
    PartBoth(U64(), Word64(), Always<nat>(), 8, c1, d1, o1, 41, len);
    SamePart(FunctionSummaryCodec(utf8), len, FunctionDom(), Each(Always<nat>(), o1), FunctionDom(), FunctionOk(utf8),
      49);
    PartVec(57, FunctionSummaryCodec(utf8), FunctionDom(), FunctionOk(utf8), 49, len);
  }

  // ---------- the whole file ----------

  /** Every number fits its field. */
  ghost predicate AnalysisFits(v: Analysis) {
    && All(Word64(), v.rowOffsets) && All(EdgeDom(), v.edges) && All(MemDom(), v.memLastDef)
    && All(CheckpointDom(), v.checkpoints) && Words(15)(v.summary.0) && v.summary.1 < Pow256(4)
    && All(PcDom(), v.pcs) && All(FunctionDom(), v.functions)
  }

  /** Texts within the string limit and a call tree within the blob limit. */
  ghost predicate Moderate(utf8: Utf8, v: Analysis) {
    && (forall p :: p in v.pcs ==> Short(utf8)(p.1.0))
    && (forall f :: f in v.functions && f.1.0.Some? ==> Short(utf8)(f.1.0.value))
    && |v.callTree| <= MAX_BLOB_BYTES
  }

  /** The two tables whose elements can be shorter than their reader assumes are within its caps. */
  predicate WithinCaps(v: Analysis, len: nat) { |v.pcs| <= len / 88 && |v.functions| <= len / 57 }

  lemma PcsModerate(utf8: Utf8, pcs: seq<PcSummary>)
    ensures All(PcOk(utf8), pcs) <==> forall p :: p in pcs ==> Short(utf8)(p.1.0)
  {}

  lemma FunctionsModerate(utf8: Utf8, fns: seq<FunctionSummary>)
    ensures All(FunctionOk(utf8), fns) <==> forall f :: f in fns && f.1.0.Some? ==> Short(utf8)(f.1.0.value)
  {
    hide Short;
    if All(FunctionOk(utf8), fns) {
      forall f | f in fns && f.1.0.Some? ensures Short(utf8)(f.1.0.value) {
        var i :| 0 <= i < |fns| && fns[i] == f;
        assert FunctionOk(utf8)(fns[i]) && IfAny(Short(utf8))(f.1.0);
      }
    } else {
      var i :| 0 <= i < |fns| && !FunctionOk(utf8)(fns[i]);
      assert fns[i] in fns && !IfAny(Short(utf8))(fns[i].1.0);
    }
  }

  lemma ModerateIs(utf8: Utf8, v: Analysis)
    ensures Moderate(utf8, v) <==>
      All(PcOk(utf8), v.pcs) && All(FunctionOk(utf8), v.functions) && SmallBlob()(v.callTree)
  {
    PcsModerate(utf8, v.pcs);
    FunctionsModerate(utf8, v.functions);
    hide Short, PcOk, FunctionOk;
  }

  lemma BodyPart(utf8: Utf8, len: nat)
    requires utf8.Faithful() && len < Pow256(8)
    ensures Exact(Body(utf8), len, v => AnalysisFits(v), v => WithinCaps(v, len) && Moderate(utf8, v))
  {
    PartWord(8, len);
    PartVec(8, U64(), Word64(), Always<nat>(), 8, len);
    EdgesPart(len);
    MemPart(len);
    CheckpointsPart(len);
    PartFixed(15, len);
    PartWord(4, len);
    PcsPart(utf8, len);
    FunctionsPart(utf8, len);
    BlobExact(len);
    var blob, dBlob, oBlob := Blob(), Always<seq<Byte>>(), SmallBlob();
    assert Part(blob, len, dBlob, oBlob, 8);
    hide Part, Exact, Pow256, EdgeDom, MemDom, CheckpointDom, PcDom, FunctionDom, PcOk, FunctionOk, AnalysisFits,
      WithinCaps, Moderate;
    var fns, dFns, oFns := Vec(57, FunctionSummaryCodec(utf8)), Every(FunctionDom()),
      AtMost(len / 57, FunctionOk(utf8));
    PartBoth(fns, dFns, oFns, 8, blob, dBlob, oBlob, 8, len);
    var c1, d1, o1 := Both(fns, blob), Each(dFns, dBlob), Each(oFns, oBlob);
    var pcs, dPcs, oPcs := Vec(88, PcSummaryCodec(utf8)), Every(PcDom()), AtMost(len / 88, PcOk(utf8));
    PartBoth(pcs, dPcs, oPcs, 8, c1, d1, o1, 16, len);
    var c2, d2, o2 := Both(pcs, c1), Each(dPcs, d1), Each(oPcs, o1);
    PartBoth(Fixed(15), Words(15), Always<seq<nat>>(), 120, Unsigned(4), W4(), Always<nat>(), 4, len);
    var sum, dSum, oSum := SummaryCodec(), Each(Words(15), W4()), Each(Always<seq<nat>>(), Always<nat>());
    PartBoth(sum, dSum, oSum, 124, c2, d2, o2, 24, len);
    var c3, d3, o3 := Both(sum, c2), Each(dSum, d2), Each(oSum, o2);
    var cks, dCks, oCks := Vec(276, CheckpointCodec()), Every(CheckpointDom()), Every(Always<Checkpoint>());
    PartBoth(cks, dCks, oCks, 8, c3, d3, o3, 148, len);
    var c4, d4, o4 := Both(cks, c3), Each(dCks, d3), Each(oCks, o3);
    var mem, dMem, oMem := Vec(17, MemLastDefCodec()), Every(MemDom()), Every(Always<MemLastDef>());
    PartBoth(mem, dMem, oMem, 8, c4, d4, o4, 156, len);
    var c5, d5, o5 := Both(mem, c4), Each(dMem, d4), Each(oMem, o4);
    var eds, dEds, oEds := Vec(9, EdgeCodec()), Every(EdgeDom()), Every(Always<Edge>());
    PartBoth(eds, dEds, oEds, 8, c5, d5, o5, 164, len);
    var c6, d6, o6 := Both(eds, c5), Each(dEds, d5), Each(oEds, o5);
    var off, dOff, oOff := Vec(8, U64()), Every(Word64()), Every(Always<nat>());
    PartBoth(off, dOff, oOff, 8, c6, d6, o6, 172, len);
    PartIsExact(NestedBody(utf8), len, Each(dOff, d6), Each(oOff, o6), 180);
    forall v: Analysis | AnalysisFits(v)
      ensures Each(dOff, d6)(Nest(v)) && Each(oOff, o6)(Nest(v)) == (WithinCaps(v, len) && Moderate(utf8, v))
    {
      AnalysisChain(utf8, v, len);
    }
    NestedIsExact(utf8, len, Each(dOff, d6), Each(oOff, o6));
  }

  lemma NestedIsExact(utf8: Utf8, len: nat, dom: Nested -> bool, ok: Nested -> bool)
    requires Exact(NestedBody(utf8), len, dom, ok)
    requires forall v: Analysis :: AnalysisFits(v) ==>
      dom(Nest(v)) && ok(Nest(v)) == (WithinCaps(v, len) && Moderate(utf8, v))
    ensures Exact(Body(utf8), len, v => AnalysisFits(v), v => WithinCaps(v, len) && Moderate(utf8, v))
  {
    hide Exact, NestedBody, AnalysisFits, WithinCaps, Moderate;
    AsExact(NestedBody(utf8), dom, ok, n => Unnest(n), v => Nest(v), len);
    SameExact(Body(utf8), len, Under(dom, v => Nest(v)), Under(ok, v => Nest(v)), v => AnalysisFits(v),
      v => WithinCaps(v, len) && Moderate(utf8, v));
  }

  lemma PartIsExact<T(!new)>(c: Codec<T>, len: nat, dom: T -> bool, ok: T -> bool, min: nat)
    requires Part(c, len, dom, ok, min)
    ensures Exact(c, len, dom, ok)
  {}

  lemma AnalysisChain(utf8: Utf8, v: Analysis, len: nat)
    requires AnalysisFits(v)
    ensures Each(Every(Word64()), Each(Every(EdgeDom()), Each(Every(MemDom()), Each(Every(CheckpointDom()),
      Each(Each(Words(15), W4()), Each(Every(PcDom()), Each(Every(FunctionDom()), Always<seq<Byte>>())))))))(Nest(v))
    ensures Each(Every(Always<nat>()), Each(Every(Always<Edge>()),
      Each(Every(Always<MemLastDef>()), Each(Every(Always<Checkpoint>()),
      Each(Each(Always<seq<nat>>(), Always<nat>()), Each(AtMost(len / 88, PcOk(utf8)),
        Each(AtMost(len / 57, FunctionOk(utf8)), SmallBlob())))))))(Nest(v))
      == (WithinCaps(v, len) && Moderate(utf8, v))
  {
    ModerateIs(utf8, v);
    hide Moderate, EdgeDom, MemDom, CheckpointDom, PcDom, FunctionDom, PcOk, FunctionOk, SmallBlob, Words;
  }

  const MAGIC: seq<Byte> := [0x54, 0x4D, 0x41, 0x4E, 0x4C, 0x31, 0, 0]

  const VERSION: nat := 1

  /** What a file is tied to: the trace's size and contents, and the symbols. */
  datatype Stamp = Stamp(size: nat, fingerprint: nat, symbols: nat) {
    predicate Fits() { size < Pow256(8) && fingerprint < Pow256(8) && symbols < Pow256(8) }
  }

  function Header(s: Stamp): seq<Byte> { Preamble(MAGIC, VERSION, s.size, s.fingerprint) + Le(s.symbols, 8) }

  predicate HeaderMatches(file: seq<Byte>, s: Stamp) {
    && PreambleMatches(file, MAGIC, VERSION, s.size, s.fingerprint)
    && |file| >= 36 && Word(file[28..36]) == s.symbols
  }

  lemma HeaderMatchesIff(s: Stamp, rest: seq<Byte>, t: Stamp)
    requires s.Fits()
    ensures HeaderMatches(Header(s) + rest, t) <==> s == t
  {
    var symbols, file := Le(s.symbols, 8), Header(s) + rest;
    WordOfLe(s.symbols, 8);
    assert Pow256(4) == 0x1_0000_0000;
    PreambleMatchesIff(MAGIC, VERSION, s.size, s.fingerprint, symbols + rest, t.size, t.fingerprint);
    hide Le, Word, Pow256, PreambleMatches;
    Fields(MAGIC, Le(VERSION, 4), Le(s.size, 8), Le(s.fingerprint, 8), symbols + rest);
    assert file == Preamble(MAGIC, VERSION, s.size, s.fingerprint) + (symbols + rest);
    assert file[28..36] == file[28..][..8] == symbols;
  }

  function FileOf(utf8: Utf8, v: Analysis, s: Stamp): seq<Byte> { Header(s) + Body(utf8).put(v) }

  function Loaded(utf8: Utf8, file: seq<Byte>, s: Stamp): Option<Analysis> {
    if !HeaderMatches(file, s) then None
    else
      match Body(utf8).get(|file|, file[36..])
      case Bad => None
      case Got(v, _) => Some(v)
  }

  /**
   * Exactly when a saved analysis loads again: same trace and symbols, texts within their limits, and the tables per
   * PC and per function within what their readers derive from the length of the file.
   */
  lemma SavedLoadsIff(utf8: Utf8, v: Analysis, s: Stamp, t: Stamp)
    requires utf8.Faithful() && s.Fits() && AnalysisFits(v) && |FileOf(utf8, v, s)| < Pow256(8)
    ensures Loaded(utf8, FileOf(utf8, v, s), t)
      == if s == t && WithinCaps(v, |FileOf(utf8, v, s)|) && Moderate(utf8, v) then Some(v) else None
  {
    HeaderMatchesIff(s, Body(utf8).put(v), t);
    BodyReadsBack(utf8, v, Header(s));
    hide HeaderMatches, AnalysisFits, Moderate, WithinCaps, Pow256, Body, Header;
  }

  lemma BodyReadsBack(utf8: Utf8, v: Analysis, header: seq<Byte>)
    requires utf8.Faithful() && AnalysisFits(v) && |header| == 36 && |header + Body(utf8).put(v)| < Pow256(8)
    ensures var file := header + Body(utf8).put(v);
      Body(utf8).get(|file|, file[36..]) == if WithinCaps(v, |file|) && Moderate(utf8, v) then Got(v, []) else Bad
  {
    var len := |header + Body(utf8).put(v)|;
    BodyPart(utf8, len);
    hide AnalysisFits, Moderate, WithinCaps, Pow256, Body, Exact;
    FileReadsBack(Body(utf8), v => AnalysisFits(v), v => WithinCaps(v, len) && Moderate(utf8, v), header, v);
  }

  // ---------- when the caps hold ----------

  lemma BodySize(utf8: Utf8, v: Analysis)
    ensures |Body(utf8).put(v)| == |Vec(8, U64()).put(v.rowOffsets)| + |Vec(9, EdgeCodec()).put(v.edges)|
      + |Vec(17, MemLastDefCodec()).put(v.memLastDef)|
      + |Vec(276, CheckpointCodec()).put(v.checkpoints)| + |SummaryCodec().put(v.summary)|
      + |Vec(88, PcSummaryCodec(utf8)).put(v.pcs)| + |Vec(57, FunctionSummaryCodec(utf8)).put(v.functions)|
      + |Blob().put(v.callTree)|
  {}

  lemma TablesTakeSpace(utf8: Utf8, v: Analysis)
    requires utf8.Faithful() && AnalysisFits(v)
    ensures |Body(utf8).put(v)| >= 8 * |v.rowOffsets| + 80 * |v.pcs| + 49 * |v.functions|
  {
    BodySize(utf8, v);
    WordsSize(v.rowOffsets);
    PcsPart(utf8, 0);
    FunctionsPart(utf8, 0);
    ManyAtLeast(PcSummaryCodec(utf8), PcDom(), 80, v.pcs);
    ManyAtLeast(FunctionSummaryCodec(utf8), FunctionDom(), 49, v.functions);
    hide PutMany, Body, PcSummaryCodec, FunctionSummaryCodec, Exact, AtLeastOn, AnalysisFits, EdgeCodec,
      MemLastDefCodec, CheckpointCodec;
  }

  /**
   * The 88 and 57 bytes the readers assume are more than the writers' least 80 and 49. The row offsets make up for it:
   * 8 bytes for every record, and there are no more PCs or functions than records.
   */
  lemma RowOffsetsMakeUp(utf8: Utf8, v: Analysis, s: Stamp, n: nat)
    requires utf8.Faithful() && AnalysisFits(v)
    requires |v.rowOffsets| == n + 1 && |v.pcs| <= n && |v.functions| <= n
    ensures WithinCaps(v, |FileOf(utf8, v, s)|)
  {
    TablesTakeSpace(utf8, v);
    FileHoldsBody(utf8, v, s);
    hide Body, AnalysisFits, FileOf;
    EightPerRecord(n, |v.pcs|, |v.functions|, |FileOf(utf8, v, s)|);
  }

  lemma FileHoldsBody(utf8: Utf8, v: Analysis, s: Stamp)
    ensures |FileOf(utf8, v, s)| >= |Body(utf8).put(v)|
  {}

  lemma EightPerRecord(n: nat, pcs: nat, functions: nat, len: nat)
    requires len >= 8 * (n + 1) + 80 * pcs + 49 * functions && pcs <= n && functions <= n
    ensures pcs <= len / 88 && functions <= len / 57
  {}

  lemma {:induction false} ManySize<T(!new)>(c: Codec<T>, size: nat, v: T, n: nat)
    requires |c.put(v)| == size
    ensures |PutMany(c, seq(n, _ => v))| == n * size
  {
    if n > 0 {
      ManySize(c, size, v, n - 1);
      assert seq(n, _ => v)[..n - 1] == seq(n - 1, _ => v);
      assert (n - 1) * size == n * size - size;
    }
  }

  const ZEROS: seq<nat> := [0, 0, 0, 0, 0, 0, 0, 0]

  const NO_SUMMARY: Summary := ([0, 0, 0, 0, 0, 0, 0, 0, 0, 0, 0, 0, 0, 0, 0], 0)

  const NO_TEXT_PC: PcSummary := (0, ("", ZEROS))

  /** Forty PCs of empty text and nothing else. */
  function FortyPcs(): Analysis {
    Analysis([], [], [], [], NO_SUMMARY, seq(40, _ => NO_TEXT_PC), [], [])
  }

  lemma EmptySize<T>(assumed: nat, c: Codec<T>)
    requires assumed > 0
    ensures |Vec(assumed, c).put([])| == 8
  {}

  lemma SummarySize()
    ensures |SummaryCodec().put(NO_SUMMARY)| == 124
  {
    WordsSize(NO_SUMMARY.0);
    hide PutMany;
  }

  lemma NoTextSize(utf8: Utf8)
    requires utf8.encode("") == []
    ensures |PcSummaryCodec(utf8).put(NO_TEXT_PC)| == 80
  {
    WordsSize(ZEROS);
    hide PutMany;
  }

  lemma FortySize(c: Codec<PcSummary>)
    requires |c.put(NO_TEXT_PC)| == 80
    ensures |Vec(88, c).put(FortyPcs().pcs)| == 3208
  {
    ManySize(c, 80, NO_TEXT_PC, 40);
    hide PutMany;
  }

  lemma OnlyPcsSize(utf8: Utf8, v: Analysis)
    requires v.rowOffsets == [] && v.edges == [] && v.memLastDef == [] && v.checkpoints == [] && v.functions == []
      && v.callTree == []
    ensures |Body(utf8).put(v)| == 48 + |SummaryCodec().put(v.summary)| + |Vec(88, PcSummaryCodec(utf8)).put(v.pcs)|
  {
    BodySize(utf8, v);
    EmptySize(8, U64());
    EmptySize(9, EdgeCodec());
    EmptySize(17, MemLastDefCodec());
    EmptySize(276, CheckpointCodec());
    EmptySize(57, FunctionSummaryCodec(utf8));
    assert |Blob().put([])| == 8;
    hide Vec, PutMany, Body, U64, EdgeCodec, MemLastDefCodec, CheckpointCodec, PcSummaryCodec, FunctionSummaryCodec,
      SummaryCodec, Blob;
  }

  lemma FortyPcsSize(utf8: Utf8)
    requires utf8.encode("") == []
    ensures |Body(utf8).put(FortyPcs())| == 3380
  {
    SummarySize();
    NoTextSize(utf8);
    FortySize(PcSummaryCodec(utf8));
    hide Vec, PutMany, Body, PcSummaryCodec, SummaryCodec;
    OnlyPcsSize(utf8, FortyPcs());
  }

  lemma FortyPcsFit(utf8: Utf8)
    requires utf8.encode("") == []
    ensures AnalysisFits(FortyPcs()) && Moderate(utf8, FortyPcs()) && |FortyPcs().pcs| == 40
  {
    assert Pow256(8) == 0x1_0000_0000_0000_0000 && Pow256(4) == 0x1_0000_0000;
    hide Pow256;
  }

  /** Without the row offsets the cap does fire: a legitimate file with forty PCs of empty text is refused. */
  lemma CapCanFire(utf8: Utf8, s: Stamp)
    requires utf8.Faithful() && utf8.encode("") == [] && s.Fits()
    ensures AnalysisFits(FortyPcs()) && Moderate(utf8, FortyPcs())
    ensures Loaded(utf8, FileOf(utf8, FortyPcs(), s), s) == None
  {
    FortyPcsSize(utf8);
    FortyPcsFit(utf8);
    assert Pow256(8) == 0x1_0000_0000_0000_0000;
    assert |FileOf(utf8, FortyPcs(), s)| == 3416;
    hide Pow256, AnalysisFits, Moderate, Body, FortyPcs, Header, Loaded, FileOf;
    SavedLoadsIff(utf8, FortyPcs(), s, s);
  }
}
