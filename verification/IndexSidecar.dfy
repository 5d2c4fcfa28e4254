/** The register and memory index on disk. */
module IndexSidecar {
  import opened Wrappers
  import opened Bytes
  import opened Codecs
  import opened MapListings
  import opened IndexSpec

  const MAGIC: seq<Byte> := [0x54, 0x4D, 0x49, 0x44, 0x58, 0x32, 0, 0]

  const VERSION: nat := 2

  type Pairs<K> = seq<(K, seq<nat>)>

  type MemRecBytes = (nat, (nat, (nat, Option<nat>)))

  /** The tables in file order, maps as the pairs they were iterated in. */
  datatype Tables = Tables(
    regDefs: Pairs<string>,
    regUses: Pairs<string>,
    memWrites: seq<MemRec>,
    memReads: seq<MemRec>,
    pcToIdxs: Pairs<nat>,
    memAddrToWrites: Pairs<nat>,
    memAddrToReads: Pairs<nat>,
    condBranches: seq<nat>,
    callRetBoundaries: seq<nat>)

  type NumberTables = (Pairs<nat>, (Pairs<nat>, (Pairs<nat>, (seq<nat>, seq<nat>))))

  type NestedTables = (Pairs<string>, (Pairs<string>, (seq<MemRec>, (seq<MemRec>, NumberTables))))

  function Nest(t: Tables): NestedTables {
    (t.regDefs, (t.regUses, (t.memWrites, (t.memReads,
      (t.pcToIdxs, (t.memAddrToWrites, (t.memAddrToReads, (t.condBranches, t.callRetBoundaries))))))))
  }

  function Unnest(n: NestedTables): Tables {
    var (regDefs, (regUses, (memWrites, (memReads, numbers)))) := n;
    var (pcToIdxs, (memAddrToWrites, (memAddrToReads, (condBranches, callRetBoundaries)))) := numbers;
    Tables(regDefs, regUses, memWrites, memReads, pcToIdxs, memAddrToWrites, memAddrToReads, condBranches,
      callRetBoundaries)
  }

  function Idxs(): Codec<seq<nat>> { Vec(8, U64()) }

  function MemRecCodec(): Codec<MemRec> {
    As(Both(U64(), Both(U64(), Both(Unsigned(4), Optional(U64())))),
       (b: MemRecBytes) => MemRec(b.0, b.1.0, b.1.1.0, b.1.1.1),
       (m: MemRec) => (m.idx, (m.addr, (m.size, m.value))))
  }

  function MemRecs(): Codec<seq<MemRec>> { Vec(21, MemRecCodec()) }

  function StringLists(utf8: Utf8): Codec<Pairs<string>> { Vec(16, Both(Text(utf8), Idxs())) }

  function NumberLists(): Codec<Pairs<nat>> { Vec(16, Both(U64(), Idxs())) }

  function Body(utf8: Utf8): Codec<Tables> { As(NestedBody(utf8), n => Unnest(n), t => Nest(t)) }

  function NestedBody(utf8: Utf8): Codec<NestedTables> {
    Both(StringLists(utf8), Both(StringLists(utf8), Both(MemRecs(), Both(MemRecs(),
      Both(NumberLists(), Both(NumberLists(), Both(NumberLists(), Both(Idxs(), Idxs()))))))))
  }

  // ---------- what fits, and what is read back ----------

  predicate RecFits(m: MemRec) {
    m.idx < Pow256(8) && m.addr < Pow256(8) && m.size < Pow256(4) && (m.value.Some? ==> m.value.value < Pow256(8))
  }

  ghost function ListFits<K(!new)>(key: K -> bool): ((K, seq<nat>)) -> bool { Each(key, Every(Word64())) }

  ghost function ListReads<K(!new)>(key: K -> bool): ((K, seq<nat>)) -> bool { Each(key, Every(Always<nat>())) }

  lemma IdxsExact(len: nat)
    requires len < Pow256(8)
    ensures Exact(Idxs(), len, Every(Word64()), Every(Always<nat>())) && AtLeast(Idxs(), 8)
  {
    UnsignedExact(8, len);
    AtLeastAnywhere(U64(), Word64(), 8);
    CapNeverFires(U64(), 8, Word64(), Always<nat>(), len);
  }

  lemma ListsExact<K(!new)>(key: Codec<K>, dom: K -> bool, ok: K -> bool, len: nat)
    requires len < Pow256(8) && Exact(key, len, dom, ok) && AtLeast(key, 8)
    ensures Exact(Vec(16, Both(key, Idxs())), len, Every(ListFits(dom)), Every(ListReads(ok)))
  {
    IdxsExact(len);
    BothExact(key, dom, ok, Idxs(), Every(Word64()), Every(Always<nat>()), len);
    BothAtLeast(key, 8, Idxs(), 8);
    hide Exact, AtLeast, Pow256;
    AtLeastAnywhere(Both(key, Idxs()), ListFits(dom), 16);
    CapNeverFires(Both(key, Idxs()), 16, ListFits(dom), ListReads(ok), len);
  }

  function RecFitsFn(): MemRec -> bool { (m: MemRec) => RecFits(m) }

  lemma MemRecExact(len: nat)
    requires len < Pow256(8)
    ensures Exact(MemRecCodec(), len, RecFitsFn(), Always<MemRec>()) && AtLeast(MemRecCodec(), 21)
  {
    UnsignedExact(8, len);
    UnsignedExact(4, len);
    OptionalExact(U64(), Word64(), Always<nat>(), len);
    var opt, dom1, ok1 := Optional(U64()), IfAny(Word64()), IfAny(Always<nat>());
    var half := Below(Pow256(4));
    hide Exact, AtLeast, Pow256;
    BothExact(Unsigned(4), half, Always<nat>(), opt, dom1, ok1, len);
    BothAtLeast(Unsigned(4), 4, opt, 1);
    var c2, dom2, ok2 := Both(Unsigned(4), opt), Each(half, dom1), Each(Always<nat>(), ok1);
    BothExact(U64(), Word64(), Always<nat>(), c2, dom2, ok2, len);
    BothAtLeast(U64(), 8, c2, 5);
    var c3, dom3, ok3 := Both(U64(), c2), Each(Word64(), dom2), Each(Always<nat>(), ok2);
    BothExact(U64(), Word64(), Always<nat>(), c3, dom3, ok3, len);
    BothAtLeast(U64(), 8, c3, 13);
    var view := (b: MemRecBytes) => MemRec(b.0, b.1.0, b.1.1.0, b.1.1.1);
    var back := (m: MemRec) => (m.idx, (m.addr, (m.size, m.value)));
    AsExact(Both(U64(), c3), Each(Word64(), dom3), Each(Always<nat>(), ok3), view, back, len);
    AsAtLeast(Both(U64(), c3), view, back, 21);
    SameExact(MemRecCodec(), len, Under(Each(Word64(), dom3), back), Under(Each(Always<nat>(), ok3), back),
      RecFitsFn(), Always<MemRec>());
  }

  lemma MemRecsExact(len: nat)
    requires len < Pow256(8)
    ensures Exact(MemRecs(), len, Every(RecFitsFn()), Every(Always<MemRec>()))
  {
    MemRecExact(len);
    hide Exact, AtLeast, Pow256, MemRecCodec;
    AtLeastAnywhere(MemRecCodec(), RecFitsFn(), 21);
    CapNeverFires(MemRecCodec(), 21, RecFitsFn(), Always<MemRec>(), len);
  }

  // ---------- the whole file ----------

  ghost predicate TablesFit(t: Tables) {
    && All(ListFits(Always<string>()), t.regDefs) && All(ListFits(Always<string>()), t.regUses)
    && All(RecFitsFn(), t.memWrites) && All(RecFitsFn(), t.memReads)
    && All(ListFits(Word64()), t.pcToIdxs) && All(ListFits(Word64()), t.memAddrToWrites)
      && All(ListFits(Word64()), t.memAddrToReads)
    && All(Word64(), t.condBranches) && All(Word64(), t.callRetBoundaries)
  }

  /** Register names within the string limit: the only thing a reader of legitimate tables can refuse. */
  ghost predicate TablesShort(utf8: Utf8, t: Tables) {
    && (forall p :: p in t.regDefs ==> Short(utf8)(p.0))
    && (forall p :: p in t.regUses ==> Short(utf8)(p.0))
  }

  lemma NumbersAlwaysRead(pairs: Pairs<nat>)
    ensures All(ListReads(Always<nat>()), pairs)
  {
    forall i | 0 <= i < |pairs| ensures ListReads(Always<nat>())(pairs[i]) {
      assert Every(Always<nat>())(pairs[i].1);
    }
  }

  lemma NamesRead(utf8: Utf8, pairs: Pairs<string>)
    ensures All(ListReads(Short(utf8)), pairs) <==> forall p :: p in pairs ==> Short(utf8)(p.0)
  {
    if All(ListReads(Short(utf8)), pairs) {
      forall p | p in pairs ensures Short(utf8)(p.0) {
        var i :| 0 <= i < |pairs| && pairs[i] == p;
        assert ListReads(Short(utf8))(pairs[i]);
      }
    }
    if forall p :: p in pairs ==> Short(utf8)(p.0) {
      forall i | 0 <= i < |pairs| ensures ListReads(Short(utf8))(pairs[i]) {
        assert pairs[i] in pairs && Every(Always<nat>())(pairs[i].1);
      }
    }
  }

  lemma BodyExact(utf8: Utf8, len: nat)
    requires utf8.Faithful() && len < Pow256(8)
    ensures Exact(Body(utf8), len, t => TablesFit(t), t => TablesShort(utf8, t))
  {
    TextExact(utf8, len);
    UnsignedExact(8, len);
    IdxsExact(len);
    MemRecsExact(len);
    ListsExact(Text(utf8), Always<string>(), Short(utf8), len);
    ListsExact(U64(), Word64(), Always<nat>(), len);
    var names, dNames, oNames := StringLists(utf8), Every(ListFits(Always<string>())), Every(ListReads(Short(utf8)));
    var nums, dNums, oNums := NumberLists(), Every(ListFits(Word64())), Every(ListReads(Always<nat>()));
    var recs, dRecs, oRecs := MemRecs(), Every(RecFitsFn()), Every(Always<MemRec>());
    var idxs, dIdxs, oIdxs := Idxs(), Every(Word64()), Every(Always<nat>());
    hide Exact, AtLeast, Pow256, TablesFit, TablesShort, ListFits, ListReads, MemRecs;
    BothExact(idxs, dIdxs, oIdxs, idxs, dIdxs, oIdxs, len);
    var c2, d2, o2 := Both(idxs, idxs), Each(dIdxs, dIdxs), Each(oIdxs, oIdxs);
    BothExact(nums, dNums, oNums, c2, d2, o2, len);
    var c3, d3, o3 := Both(nums, c2), Each(dNums, d2), Each(oNums, o2);
    BothExact(nums, dNums, oNums, c3, d3, o3, len);
    var c4, d4, o4 := Both(nums, c3), Each(dNums, d3), Each(oNums, o3);
    BothExact(nums, dNums, oNums, c4, d4, o4, len);
    var c5, d5, o5 := Both(nums, c4), Each(dNums, d4), Each(oNums, o4);
    BothExact(recs, dRecs, oRecs, c5, d5, o5, len);
    var c6, d6, o6 := Both(recs, c5), Each(dRecs, d5), Each(oRecs, o5);
    BothExact(recs, dRecs, oRecs, c6, d6, o6, len);
    var c7, d7, o7 := Both(recs, c6), Each(dRecs, d6), Each(oRecs, o6);
    BothExact(names, dNames, oNames, c7, d7, o7, len);
    var c8, d8, o8 := Both(names, c7), Each(dNames, d7), Each(oNames, o7);
    BothExact(names, dNames, oNames, c8, d8, o8, len);
    forall t: Tables | TablesFit(t)
      ensures Each(dNames, d8)(Nest(t)) && Each(oNames, o8)(Nest(t)) == TablesShort(utf8, t) {
      TablesChain(utf8, t);
    }
    NestedIsExact(utf8, len, Each(dNames, d8), Each(oNames, o8));
  }

  lemma NestedIsExact(utf8: Utf8, len: nat, dom: NestedTables -> bool, ok: NestedTables -> bool)
    requires Exact(NestedBody(utf8), len, dom, ok)
    requires forall t: Tables :: TablesFit(t) ==> dom(Nest(t)) && ok(Nest(t)) == TablesShort(utf8, t)
    ensures Exact(Body(utf8), len, t => TablesFit(t), t => TablesShort(utf8, t))
  {
    hide Exact, NestedBody, TablesFit, TablesShort;
    AsExact(NestedBody(utf8), dom, ok, n => Unnest(n), t => Nest(t), len);
    SameExact(Body(utf8), len, Under(dom, t => Nest(t)), Under(ok, t => Nest(t)), t => TablesFit(t),
      t => TablesShort(utf8, t));
  }

  lemma TablesChain(utf8: Utf8, t: Tables)
    requires TablesFit(t)
    ensures var dn, dk, dr, di := Every(ListFits(Always<string>())), Every(ListFits(Word64())), Every(RecFitsFn()),
      Every(Word64());
      Each(dn, Each(dn, Each(dr, Each(dr, Each(dk, Each(dk, Each(dk, Each(di, di))))))))(Nest(t))
    ensures var on, ok, or', oi := Every(ListReads(Short(utf8))), Every(ListReads(Always<nat>())),
      Every(Always<MemRec>()), Every(Always<nat>());
      Each(on, Each(on, Each(or', Each(or', Each(ok,
        Each(ok, Each(ok, Each(oi, oi))))))))(Nest(t)) == TablesShort(utf8, t)
  {
    NamesRead(utf8, t.regDefs);
    NamesRead(utf8, t.regUses);
    NumbersAlwaysRead(t.pcToIdxs);
    NumbersAlwaysRead(t.memAddrToWrites);
    NumbersAlwaysRead(t.memAddrToReads);
    hide ListFits, ListReads, Short;
  }

  function ToIndex(t: Tables): Index {
    Index(FromPairs(t.regDefs), FromPairs(t.regUses), t.memWrites, t.memReads, FromPairs(t.pcToIdxs),
      FromPairs(t.memAddrToWrites),
          FromPairs(t.memAddrToReads), t.condBranches, t.callRetBoundaries)
  }

  /** What loading a file gives: an index, or nothing if it is stale or damaged. */
  function Loaded(utf8: Utf8, file: seq<Byte>, size: nat, fingerprint: nat): Option<Index> {
    if !PreambleMatches(file, MAGIC, VERSION, size, fingerprint) then None
    else LoadedTables(utf8, file)
  }

  function LoadedTables(utf8: Utf8, file: seq<Byte>): Option<Index>
    requires |file| >= 28
  {
    match Body(utf8).get(|file|, file[28..])
    case Bad => None
    case Got(t, _) => Some(ToIndex(t))
  }

  function FileOf(utf8: Utf8, t: Tables, size: nat, fingerprint: nat): seq<Byte> {
    Preamble(MAGIC, VERSION, size, fingerprint) + Body(utf8).put(t)
  }

  /** `t` lists the tables of `idx`, its maps in some order. */
  ghost predicate Lists(idx: Index, t: Tables) {
    && IsListing(idx.regDefs, t.regDefs) && IsListing(idx.regUses, t.regUses)
    && idx.memWrites == t.memWrites && idx.memReads == t.memReads
    && IsListing(idx.pcToIdxs, t.pcToIdxs) && IsListing(idx.memAddrToWrites, t.memAddrToWrites)
    && IsListing(idx.memAddrToReads, t.memAddrToReads)
    && idx.condBranches == t.condBranches && idx.callRetBoundaries == t.callRetBoundaries
  }

  lemma ListsRebuild(idx: Index, t: Tables)
    requires Lists(idx, t)
    ensures ToIndex(t) == idx
  {
    ListingRebuilds(idx.regDefs, t.regDefs);
    ListingRebuilds(idx.regUses, t.regUses);
    ListingRebuilds(idx.pcToIdxs, t.pcToIdxs);
    ListingRebuilds(idx.memAddrToWrites, t.memAddrToWrites);
    ListingRebuilds(idx.memAddrToReads, t.memAddrToReads);
    hide IsListing, FromPairs;
  }

  lemma VersionFits()
    ensures VERSION < Pow256(4)
  {
    assert Pow256(4) == 0x1_0000_0000;
  }

  /**
   * For any iteration order of the maps, loading a saved index gives it back unchanged, unless it is held against
   * another trace or a register name is longer than the string limit; no length cap ever fires.
   */
  lemma SidecarReadsBack(utf8: Utf8, idx: Index, t: Tables, size: nat, fingerprint: nat, size': nat, fingerprint': nat)
    requires utf8.Faithful() && size < Pow256(8) && fingerprint < Pow256(8)
    requires Lists(idx, t) && TablesFit(t) && |FileOf(utf8, t, size, fingerprint)| < Pow256(8)
    ensures Loaded(utf8, FileOf(utf8, t, size, fingerprint), size', fingerprint')
      == if size == size' && fingerprint == fingerprint' && TablesShort(utf8, t) then Some(idx) else None
  {
    VersionFits();
    hide PreambleMatches, LoadedTables, TablesFit, TablesShort, Pow256, Lists, Body, Preamble;
    PreambleMatchesIff(MAGIC, VERSION, size, fingerprint, Body(utf8).put(t), size', fingerprint');
    TablesReadBack(utf8, idx, t, Preamble(MAGIC, VERSION, size, fingerprint));
  }

  lemma TablesReadBack(utf8: Utf8, idx: Index, t: Tables, header: seq<Byte>)
    requires utf8.Faithful() && Lists(idx, t) && TablesFit(t)
    requires |header| == 28 && |header + Body(utf8).put(t)| < Pow256(8)
    ensures LoadedTables(utf8, header + Body(utf8).put(t)) == if TablesShort(utf8, t) then Some(idx) else None
  {
    BodyReadsBack(utf8, t, header);
    ListsRebuild(idx, t);
    hide ToIndex, TablesFit, TablesShort, Pow256, Lists, Body;
  }

  lemma BodyReadsBack(utf8: Utf8, t: Tables, header: seq<Byte>)
    requires utf8.Faithful() && TablesFit(t) && |header| == 28 && |header + Body(utf8).put(t)| < Pow256(8)
    ensures var file := header + Body(utf8).put(t);
      Body(utf8).get(|file|, file[28..]) == if TablesShort(utf8, t) then Got(t, []) else Bad
  {
    var file := header + Body(utf8).put(t);
    BodyExact(utf8, |file|);
    hide TablesFit, TablesShort, Pow256, Body, Exact;
    FileReadsBack(Body(utf8), t => TablesFit(t), t => TablesShort(utf8, t), header, t);
  }

  // ---------- saving and loading ----------

  method SaveSidecar(utf8: Utf8, idx: Index, size: nat, fingerprint: nat) returns (file: seq<Byte>)
    ensures exists t: Tables :: Lists(idx, t) && file == FileOf(utf8, t, size, fingerprint)
  {
    hide IsListing, Vec, Text, Idxs, MemRecCodec, Both, Body;
    var b1 := WriteMap(Text(utf8), Idxs(), idx.regDefs, 16);
    ghost var t1 :| IsListing(idx.regDefs, t1) && b1 == Vec(16, Both(Text(utf8), Idxs())).put(t1);
    var b2 := WriteMap(Text(utf8), Idxs(), idx.regUses, 16);
    ghost var t2 :| IsListing(idx.regUses, t2) && b2 == Vec(16, Both(Text(utf8), Idxs())).put(t2);
    var b3 := WriteVec(MemRecCodec(), idx.memWrites, 21);
    var b4 := WriteVec(MemRecCodec(), idx.memReads, 21);
    var b5 := WriteMap(U64(), Idxs(), idx.pcToIdxs, 16);
    ghost var t5 :| IsListing(idx.pcToIdxs, t5) && b5 == Vec(16, Both(U64(), Idxs())).put(t5);
    var b6 := WriteMap(U64(), Idxs(), idx.memAddrToWrites, 16);
    ghost var t6 :| IsListing(idx.memAddrToWrites, t6) && b6 == Vec(16, Both(U64(), Idxs())).put(t6);
    var b7 := WriteMap(U64(), Idxs(), idx.memAddrToReads, 16);
    ghost var t7 :| IsListing(idx.memAddrToReads, t7) && b7 == Vec(16, Both(U64(), Idxs())).put(t7);
    var b8 := WriteVec(U64(), idx.condBranches, 8);
    var b9 := WriteVec(U64(), idx.callRetBoundaries, 8);
    ghost var t := Tables(t1, t2, idx.memWrites, idx.memReads, t5, t6, t7, idx.condBranches, idx.callRetBoundaries);
    BodyPut(utf8, t);
    file := MAGIC + Le(VERSION, 4) + Le(size, 8) + Le(fingerprint, 8);
    file := file + (b1 + (b2 + (b3 + (b4 + (b5 + (b6 + (b7 + (b8 + b9))))))));
    assert Lists(idx, t) && file == FileOf(utf8, t, size, fingerprint);
  }

  lemma BodyPut(utf8: Utf8, t: Tables)
    ensures Body(utf8).put(t)
      == Vec(16, Both(Text(utf8), Idxs())).put(t.regDefs) + (Vec(16, Both(Text(utf8), Idxs())).put(t.regUses)
         + (Vec(21, MemRecCodec()).put(t.memWrites) + (Vec(21, MemRecCodec()).put(t.memReads)
         + (Vec(16, Both(U64(), Idxs())).put(t.pcToIdxs) + (Vec(16, Both(U64(), Idxs())).put(t.memAddrToWrites)
         + (Vec(16, Both(U64(), Idxs())).put(t.memAddrToReads)
         + (Vec(8, U64()).put(t.condBranches) + Vec(8, U64()).put(t.callRetBoundaries))))))))
  {}

  /** Reading stops at the first thing that does not match. */
  method LoadSidecar(utf8: Utf8, file: seq<Byte>, size: nat, fingerprint: nat) returns (r: Option<Index>)
    ensures r == Loaded(utf8, file, size, fingerprint)
  {
    var len := |file|;
    hide Vec, Text, Idxs, MemRecCodec, Both, Body, Word, FromPairs;
    if len < 8 || file[..8] != MAGIC { return None; }
    if len < 12 || Word(file[8..12]) != VERSION { return None; }
    if len < 20 || Word(file[12..20]) != size { return None; }
    if len < 28 || Word(file[20..28]) != fingerprint { return None; }
    BodyGet(utf8, len, file[28..]);
    var r1 := ReadMap(Text(utf8), Idxs(), len, 16, file[28..]);
    if r1.Bad? { return None; }
    var r2 := ReadMap(Text(utf8), Idxs(), len, 16, r1.rest);
    if r2.Bad? { return None; }
    var r3 := ReadVec(MemRecCodec(), len, 21, r2.rest);
    if r3.Bad? { return None; }
    var r4 := ReadVec(MemRecCodec(), len, 21, r3.rest);
    if r4.Bad? { return None; }
    var r5 := ReadMap(U64(), Idxs(), len, 16, r4.rest);
    if r5.Bad? { return None; }
    var r6 := ReadMap(U64(), Idxs(), len, 16, r5.rest);
    if r6.Bad? { return None; }
    var r7 := ReadMap(U64(), Idxs(), len, 16, r6.rest);
    if r7.Bad? { return None; }
    var r8 := ReadVec(U64(), len, 8, r7.rest);
    if r8.Bad? { return None; }
    var r9 := ReadVec(U64(), len, 8, r8.rest);
    if r9.Bad? { return None; }
    r := Some(Index(r1.value, r2.value, r3.value, r4.value, r5.value, r6.value, r7.value, r8.value, r9.value));
  }

  /** The body is read table by table. */
  lemma BodyGet(utf8: Utf8, len: nat, bytes: seq<Byte>)
    ensures Body(utf8).get(len, bytes) ==
      match Vec(16, Both(Text(utf8), Idxs())).get(len, bytes) case Bad => Bad case Got(v1, s1) =>
      match Vec(16, Both(Text(utf8), Idxs())).get(len, s1) case Bad => Bad case Got(v2, s2) =>
      match Vec(21, MemRecCodec()).get(len, s2) case Bad => Bad case Got(v3, s3) =>
      match Vec(21, MemRecCodec()).get(len, s3) case Bad => Bad case Got(v4, s4) =>
      match Vec(16, Both(U64(), Idxs())).get(len, s4) case Bad => Bad case Got(v5, s5) =>
      match Vec(16, Both(U64(), Idxs())).get(len, s5) case Bad => Bad case Got(v6, s6) =>
      match Vec(16, Both(U64(), Idxs())).get(len, s6) case Bad => Bad case Got(v7, s7) =>
      match Vec(8, U64()).get(len, s7) case Bad => Bad case Got(v8, s8) =>
      match Vec(8, U64()).get(len, s8) case Bad => Bad case Got(v9, s9) =>
      Got(Tables(v1, v2, v3, v4, v5, v6, v7, v8, v9), s9)
  {
    hide Vec, Text, MemRecCodec, U64;
  }
}
