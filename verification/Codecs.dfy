/** Pairs of a writer and a reader, and how they compose. */
module Codecs {
  import opened Numbers
  import opened Wrappers
  import opened Bytes

  /** What a read leaves: a value and the rest of the stream, or an invalid-data error. */
  datatype Read<+T> = Got(value: T, rest: seq<Byte>) | Bad

  /** A reader also knows the length of its file, from which it derives how many elements to believe in. */
  datatype Codec<!T> = Codec(put: T -> seq<Byte>, get: (nat, seq<Byte>) -> Read<T>)

  /**
   * Of the values in `dom` whose bytes fit in `len`: reading what was written gives back exactly those with `ok`
   * and refuses the others.
   */
  ghost predicate Exact<T(!new)>(c: Codec<T>, len: nat, dom: T -> bool, ok: T -> bool) {
    forall v: T, rest: seq<Byte> :: dom(v) && |c.put(v)| <= len ==> Back(c, len, v, rest, ok(v))
  }

  predicate Back<T(==)>(c: Codec<T>, len: nat, v: T, rest: seq<Byte>, ok: bool) {
    c.get(len, c.put(v) + rest) == if ok then Got(v, rest) else Bad
  }

  ghost predicate AtLeast<T(!new)>(c: Codec<T>, min: nat) {
    forall v: T :: |c.put(v)| >= min
  }

  function Always<T>(): T -> bool { v => true }

  /** At least `min` bytes for the values that matter. */
  ghost predicate AtLeastOn<T(!new)>(c: Codec<T>, dom: T -> bool, min: nat) {
    forall v: T :: dom(v) ==> |c.put(v)| >= min
  }

  lemma AtLeastAnywhere<T(!new)>(c: Codec<T>, dom: T -> bool, min: nat)
    requires AtLeast(c, min)
    ensures AtLeastOn(c, dom, min)
  {}

  // ---------- numbers ----------

  function GetWord(k: nat, bytes: seq<Byte>): Read<nat> {
    if |bytes| < k then Bad else Got(Word(bytes[..k]), bytes[k..])
  }

  /** An unsigned number of `k` bytes. */
  function Unsigned(k: nat): Codec<nat> { Codec(v => Le(v, k), (len, bytes) => GetWord(k, bytes)) }

  function U64(): Codec<nat> { Unsigned(8) }

  function Below(limit: nat): nat -> bool { (v: nat) => v < limit }

  function Word64(): nat -> bool { Below(Pow256(8)) }

  lemma {:induction false} WordBack(k: nat, v: nat, rest: seq<Byte>)
    requires v < Pow256(k)
    ensures GetWord(k, Le(v, k) + rest) == Got(v, rest)
  {
    WordOfLe(v, k);
    assert (Le(v, k) + rest)[..k] == Le(v, k) && (Le(v, k) + rest)[k..] == rest;
  }

  lemma {:induction false} UnsignedExact(k: nat, len: nat)
    ensures Exact(Unsigned(k), len, Below(Pow256(k)), Always<nat>()) && AtLeast(Unsigned(k), k)
  {
    forall v: nat, rest: seq<Byte> | v < Pow256(k)
      ensures Back(Unsigned(k), len, v, rest, true) { WordBack(k, v, rest); }
  }

  function GetCapped(cap: nat, bytes: seq<Byte>): Read<nat> {
    match GetWord(8, bytes)
    case Bad => Bad
    case Got(len, rest) => if len > cap then Bad else Got(len, rest)
  }

  /** One byte that says which case follows; unknown ones are refused. */
  function GetTag(bytes: seq<Byte>): Read<Byte> {
    if |bytes| == 0 then Bad else Got(bytes[0], bytes[1..])
  }

  // ---------- one after the other ----------

  function GetBoth<A, B>(a: Codec<A>, b: Codec<B>, len: nat, bytes: seq<Byte>): Read<(A, B)> {
    match a.get(len, bytes)
    case Bad => Bad
    case Got(x, rest) =>
      match b.get(len, rest)
      case Bad => Bad
      case Got(y, rest') => Got((x, y), rest')
  }

  function Both<A, B>(a: Codec<A>, b: Codec<B>): Codec<(A, B)> {
    Codec((v: (A, B)) => a.put(v.0) + b.put(v.1), (len: nat, bytes: seq<Byte>) => GetBoth(a, b, len, bytes))
  }

  function Each<A, B>(p: A -> bool, q: B -> bool): ((A, B)) -> bool { (v: (A, B)) => p(v.0) && q(v.1) }

  lemma BothBack<A, B>(a: Codec<A>, okA: bool, b: Codec<B>, okB: bool, len: nat, x: A, y: B, rest: seq<Byte>)
    requires Back(a, len, x, b.put(y) + rest, okA) && Back(b, len, y, rest, okB)
    ensures Back(Both(a, b), len, (x, y), rest, okA && okB)
  {
    assert a.put(x) + b.put(y) + rest == a.put(x) + (b.put(y) + rest);
  }

  lemma BothExact<A(!new), B(!new)>(a: Codec<A>, domA: A -> bool, okA: A -> bool, b: Codec<B>, domB: B -> bool,
      okB: B -> bool, len: nat)
    requires Exact(a, len, domA, okA) && Exact(b, len, domB, okB)
    ensures Exact(Both(a, b), len, Each(domA, domB), Each(okA, okB))
  {
    forall v: (A, B), rest: seq<Byte> | Each(domA, domB)(v) && |Both(a, b).put(v)| <= len
      ensures Back(Both(a, b), len, v, rest, Each(okA, okB)(v))
    {
      BothBack(a, okA(v.0), b, okB(v.1), len, v.0, v.1, rest);
    }
  }

  lemma BothAtLeast<A(!new), B(!new)>(a: Codec<A>, m: nat, b: Codec<B>, n: nat)
    requires AtLeast(a, m) && AtLeast(b, n)
    ensures AtLeast(Both(a, b), m + n)
  {
    forall v: (A, B) ensures |Both(a, b).put(v)| >= m + n {
      assert |a.put(v.0)| >= m && |b.put(v.1)| >= n;
    }
  }

  // ---------- another view of the same bytes ----------

  function GetAs<A, B>(a: Codec<A>, view: A -> B, len: nat, bytes: seq<Byte>): Read<B> {
    match a.get(len, bytes)
    case Bad => Bad
    case Got(x, rest) => Got(view(x), rest)
  }

  function As<A, B>(a: Codec<A>, view: A -> B, back: B -> A): Codec<B> {
    Codec((v: B) => a.put(back(v)), (len: nat, bytes: seq<Byte>) => GetAs(a, view, len, bytes))
  }

  function Under<A, B>(p: A -> bool, back: B -> A): B -> bool { (v: B) => p(back(v)) }

  lemma AsExact<A(!new), B(!new)>(a: Codec<A>, dom: A -> bool, ok: A -> bool, view: A -> B, back: B -> A, len: nat)
    requires Exact(a, len, dom, ok) && forall v: B :: view(back(v)) == v
    ensures Exact(As(a, view, back), len, Under(dom, back), Under(ok, back))
  {
    forall v: B, rest: seq<Byte> | dom(back(v)) && |a.put(back(v))| <= len
      ensures Back(As(a, view, back), len, v, rest, ok(back(v)))
    {
      assert Back(a, len, back(v), rest, ok(back(v)));
    }
  }

  lemma AsAtLeast<A(!new), B(!new)>(a: Codec<A>, view: A -> B, back: B -> A, min: nat)
    requires AtLeast(a, min)
    ensures AtLeast(As(a, view, back), min)
  {}

  // ---------- optional values ----------

  function PutOption<T>(c: Codec<T>, v: Option<T>): seq<Byte> {
    match v
    case None => [0]
    case Some(x) => [1] + c.put(x)
  }

  function GetOption<T>(c: Codec<T>, len: nat, bytes: seq<Byte>): Read<Option<T>> {
    match GetTag(bytes)
    case Bad => Bad
    case Got(tag, rest) =>
      if tag == 0 then Got(None, rest)
      else if tag == 1 then
        match c.get(len, rest)
        case Bad => Bad
        case Got(x, rest') => Got(Some(x), rest')
      else Bad
  }

  function Optional<T>(c: Codec<T>): Codec<Option<T>> {
    Codec((v: Option<T>) => PutOption(c, v), (len: nat, bytes: seq<Byte>) => GetOption(c, len, bytes))
  }

  function IfAny<T>(p: T -> bool): Option<T> -> bool { (v: Option<T>) => v.Some? ==> p(v.value) }

  lemma OptionalExact<T(!new)>(c: Codec<T>, dom: T -> bool, ok: T -> bool, len: nat)
    requires Exact(c, len, dom, ok)
    ensures Exact(Optional(c), len, IfAny(dom), IfAny(ok)) && AtLeast(Optional(c), 1)
  {
    forall v: Option<T>, rest: seq<Byte> | IfAny(dom)(v) && |Optional(c).put(v)| <= len
      ensures Back(Optional(c), len, v, rest, IfAny(ok)(v))
    {
      if v.Some? {
        assert Back(c, len, v.value, rest, ok(v.value));
        assert ([1] + c.put(v.value) + rest)[1..] == c.put(v.value) + rest;
      } else {
        assert ([0] + rest)[1..] == rest;
      }
    }
  }

  // ---------- many ----------

  function PutMany<T>(c: Codec<T>, vs: seq<T>): seq<Byte> {
    if |vs| == 0 then [] else PutMany(c, vs[..|vs| - 1]) + c.put(vs[|vs| - 1])
  }

  function GetMany<T>(c: Codec<T>, len: nat, n: nat, bytes: seq<Byte>): (r: Read<seq<T>>)
    ensures r.Got? ==> |r.value| == n
  {
    if n == 0 then Got([], bytes)
    else
      match GetMany(c, len, n - 1, bytes)
      case Bad => Bad
      case Got(vs, rest) =>
        match c.get(len, rest)
        case Bad => Bad
        case Got(v, rest') => Got(vs + [v], rest')
  }

  ghost predicate All<T(!new)>(p: T -> bool, vs: seq<T>) { forall i :: 0 <= i < |vs| ==> p(vs[i]) }

  lemma AllSplits<T(!new)>(p: T -> bool, vs: seq<T>)
    requires |vs| > 0
    ensures All(p, vs) <==> All(p, vs[..|vs| - 1]) && p(vs[|vs| - 1])
  {}

  lemma {:induction false} ManyBack<T(!new)>(c: Codec<T>, len: nat, dom: T -> bool, ok: T -> bool, vs: seq<T>,
      rest: seq<Byte>)
    requires Exact(c, len, dom, ok) && All(dom, vs) && |PutMany(c, vs)| <= len
    ensures GetMany(c, len, |vs|, PutMany(c, vs) + rest) == if All(ok, vs) then Got(vs, rest) else Bad
  {
    if |vs| == 0 {
      assert PutMany(c, vs) + rest == rest;
    } else {
      var front, last := vs[..|vs| - 1], vs[|vs| - 1];
      AllSplits(dom, vs);
      AllSplits(ok, vs);
      ManyBack(c, len, dom, ok, front, c.put(last) + rest);
      assert Back(c, len, last, rest, ok(last));
      hide Exact, All;
      assert PutMany(c, vs) + rest == PutMany(c, front) + (c.put(last) + rest);
      assert vs == front + [last];
    }
  }

  lemma {:induction false} ManyAtLeast<T(!new)>(c: Codec<T>, dom: T -> bool, min: nat, vs: seq<T>)
    requires AtLeastOn(c, dom, min) && All(dom, vs)
    ensures |PutMany(c, vs)| >= |vs| * min
  {
    if |vs| > 0 {
      ManyAtLeast(c, dom, min, vs[..|vs| - 1]);
      assert (|vs| - 1) * min == |vs| * min - min;
    }
  }

  function GetVec<T>(c: Codec<T>, len: nat, cap: nat, bytes: seq<Byte>): Read<seq<T>> {
    match GetCapped(cap, bytes)
    case Bad => Bad
    case Got(n, rest) => GetMany(c, len, n, rest)
  }

  /** A length and that many elements; the reader assumes each takes at least `assumed` bytes of the file. */
  function Vec<T>(assumed: nat, c: Codec<T>): Codec<seq<T>>
    requires assumed > 0
  {
    Codec((vs: seq<T>) => Le(|vs|, 8) + PutMany(c, vs),
      (len: nat, bytes: seq<Byte>) => GetVec(c, len, len / assumed, bytes))
  }

  ghost function Every<T(!new)>(p: T -> bool): seq<T> -> bool { (vs: seq<T>) => All(p, vs) }

  ghost function AtMost<T(!new)>(cap: nat, p: T -> bool): seq<T> -> bool { (vs: seq<T>) => |vs| <= cap && All(p, vs) }

  lemma {:induction false} VecBack<T(!new)>(assumed: nat, c: Codec<T>, len: nat, dom: T -> bool, ok: T -> bool,
      vs: seq<T>, rest: seq<Byte>)
    requires Exact(c, len, dom, ok) && All(dom, vs) && |PutMany(c, vs)| <= len && |vs| < Pow256(8) && assumed > 0
    ensures Back(Vec(assumed, c), len, vs, rest, |vs| <= len / assumed && All(ok, vs))
  {
    WordBack(8, |vs|, PutMany(c, vs) + rest);
    ManyBack(c, len, dom, ok, vs, rest);
    hide Exact, All, Le, GetWord, Pow256, PutMany, GetMany, Vec;
    CountThenMany(assumed, c, len, vs, rest, All(ok, vs));
  }

  lemma {:induction false} CountThenMany<T>(assumed: nat, c: Codec<T>, len: nat, vs: seq<T>, rest: seq<Byte>, ok: bool)
    requires assumed > 0 && GetWord(8, Le(|vs|, 8) + (PutMany(c, vs) + rest)) == Got(|vs|, PutMany(c, vs) + rest)
    requires GetMany(c, len, |vs|, PutMany(c, vs) + rest) == if ok then Got(vs, rest) else Bad
    ensures Back(Vec(assumed, c), len, vs, rest, |vs| <= len / assumed && ok)
  {
    hide Le, GetWord, PutMany, GetMany;
    assert Le(|vs|, 8) + PutMany(c, vs) + rest == Le(|vs|, 8) + (PutMany(c, vs) + rest);
  }

  /** In general a vector is read back when it is within the cap. */
  lemma VecExact<T(!new)>(assumed: nat, c: Codec<T>, min: nat, dom: T -> bool, ok: T -> bool, len: nat)
    requires Exact(c, len, dom, ok) && AtLeastOn(c, dom, min) && min > 0 && len < Pow256(8) && assumed > 0
    ensures Exact(Vec(assumed, c), len, Every(dom), AtMost(len / assumed, ok)) && AtLeast(Vec(assumed, c), 8)
  {
    hide Exact, All, Pow256;
    forall vs: seq<T>, rest: seq<Byte> | Every(dom)(vs) && |Vec(assumed, c).put(vs)| <= len
      ensures Back(Vec(assumed, c), len, vs, rest, AtMost(len / assumed, ok)(vs))
    {
      ManyAtLeast(c, dom, min, vs);
      Fits(|vs|, min, |PutMany(c, vs)|);
      VecBack(assumed, c, len, dom, ok, vs, rest);
    }
    IsExact(Vec(assumed, c), len, Every(dom), AtMost(len / assumed, ok));
  }

  lemma IsExact<T(!new)>(c: Codec<T>, len: nat, dom: T -> bool, ok: T -> bool)
    requires forall v: T, rest: seq<Byte> :: dom(v) && |c.put(v)| <= len ==> Back(c, len, v, rest, ok(v))
    ensures Exact(c, len, dom, ok)
  {}

  /** Where every element really takes as many bytes as assumed, the cap never fires. */
  lemma CapNeverFires<T(!new)>(c: Codec<T>, min: nat, dom: T -> bool, ok: T -> bool, len: nat)
    requires Exact(c, len, dom, ok) && AtLeastOn(c, dom, min) && min > 0 && len < Pow256(8)
    ensures Exact(Vec(min, c), len, Every(dom), Every(ok)) && AtLeast(Vec(min, c), 8)
  {
    VecExact(min, c, min, dom, ok, len);
    forall vs: seq<T>, rest: seq<Byte> | Every(dom)(vs) && |Vec(min, c).put(vs)| <= len
      ensures Back(Vec(min, c), len, vs, rest, Every(ok)(vs))
    {
      ManyAtLeast(c, dom, min, vs);
      Fits(|vs|, min, |PutMany(c, vs)|);
      DivGrows(|PutMany(c, vs)|, len, min);
      assert Back(Vec(min, c), len, vs, rest, AtMost(len / min, ok)(vs));
    }
    IsExact(Vec(min, c), len, Every(dom), Every(ok));
  }

  lemma SameExact<T(!new)>(c: Codec<T>, len: nat, dom: T -> bool, ok: T -> bool, dom': T -> bool, ok': T -> bool)
    requires Exact(c, len, dom, ok)
    requires forall v: T :: dom'(v) ==> dom(v) && ok(v) == ok'(v)
    ensures Exact(c, len, dom', ok')
  {}

  /** A value after a header, read at the length of the whole file. */
  lemma FileReadsBack<T(!new)>(c: Codec<T>, dom: T -> bool, ok: T -> bool, header: seq<Byte>, v: T)
    requires Exact(c, |header + c.put(v)|, dom, ok) && dom(v)
    ensures c.get(|header + c.put(v)|, (header + c.put(v))[|header|..]) == if ok(v) then Got(v, []) else Bad
  {
    assert Back(c, |header + c.put(v)|, v, [], ok(v));
    assert (header + c.put(v))[|header|..] == c.put(v) + [];
  }

  // ---------- what every file opens with ----------

  /** Magic, version, trace size and trace fingerprint. */
  function Preamble(magic: seq<Byte>, version: nat, size: nat, fingerprint: nat): (p: seq<Byte>)
    ensures |p| == |magic| + 20
  {
    magic + Le(version, 4) + Le(size, 8) + Le(fingerprint, 8)
  }

  predicate PreambleMatches(file: seq<Byte>, magic: seq<Byte>, version: nat, size: nat, fingerprint: nat) {
    && |file| >= 28 && file[..8] == magic && Word(file[8..12]) == version
    && Word(file[12..20]) == size && Word(file[20..28]) == fingerprint
  }

  lemma Fields(a: seq<Byte>, b: seq<Byte>, c: seq<Byte>, d: seq<Byte>, rest: seq<Byte>)
    requires |a| == 8 && |b| == 4 && |c| == 8 && |d| == 8
    ensures var file := a + b + c + d + rest;
      file[..8] == a && file[8..12] == b && file[12..20] == c && file[20..28] == d && file[28..] == rest
  {}

  /** It is accepted exactly for the trace it was written for. */
  lemma PreambleMatchesIff(magic: seq<Byte>, version: nat, size: nat, fingerprint: nat, rest: seq<Byte>,
                                              size': nat, fingerprint': nat)
    requires |magic| == 8 && version < Pow256(4) && size < Pow256(8) && fingerprint < Pow256(8)
    ensures PreambleMatches(Preamble(magic, version, size, fingerprint) + rest, magic, version, size', fingerprint')
      <==> size == size' && fingerprint == fingerprint'
  {
    WordOfLe(version, 4);
    WordOfLe(size, 8);
    WordOfLe(fingerprint, 8);
    hide Le, Word, Pow256;
    Fields(magic, Le(version, 4), Le(size, 8), Le(fingerprint, 8), rest);
  }

  // ---------- text ----------

  const MAX_STRING_BYTES: nat := 0x100_0000

  /** UTF-8, of which only the round trip matters. */
  datatype Utf8 = Utf8(encode: string -> seq<Byte>, decode: seq<Byte> -> Option<string>) {
    ghost predicate Faithful() { forall s: string :: decode(encode(s)) == Some(s) }
  }

  function GetText(utf8: Utf8, bytes: seq<Byte>): Read<string> {
    match GetCapped(MAX_STRING_BYTES, bytes)
    case Bad => Bad
    case Got(n, rest) =>
      if |rest| < n then Bad
      else
        match utf8.decode(rest[..n])
        case None => Bad
        case Some(s) => Got(s, rest[n..])
  }

  function Text(utf8: Utf8): Codec<string> {
    Codec((s: string) => Le(|utf8.encode(s)|, 8) + utf8.encode(s), (len, bytes) => GetText(utf8, bytes))
  }

  function Short(utf8: Utf8): string -> bool { (s: string) => |utf8.encode(s)| <= MAX_STRING_BYTES }

  /** A length and that many bytes, taken apart again. */
  lemma {:induction false} Framed(bytes: seq<Byte>, rest: seq<Byte>)
    ensures Le(|bytes|, 8) + bytes + rest == Le(|bytes|, 8) + (bytes + rest)
    ensures (bytes + rest)[..|bytes|] == bytes && (bytes + rest)[|bytes|..] == rest
  {}

  lemma TextBack(utf8: Utf8, len: nat, s: string, rest: seq<Byte>)
    requires utf8.Faithful() && |utf8.encode(s)| < Pow256(8)
    ensures Back(Text(utf8), len, s, rest, |utf8.encode(s)| <= MAX_STRING_BYTES)
  {
    var bytes := utf8.encode(s);
    WordBack(8, |bytes|, bytes + rest);
    Framed(bytes, rest);
    hide Le, GetWord, Pow256;
  }

  lemma TextExact(utf8: Utf8, len: nat)
    requires utf8.Faithful() && len < Pow256(8)
    ensures Exact(Text(utf8), len, Always<string>(), Short(utf8)) && AtLeast(Text(utf8), 8)
  {
    hide Pow256, Le;
    forall s: string, rest: seq<Byte> | Always<string>()(s) && |Text(utf8).put(s)| <= len
      ensures Back(Text(utf8), len, s, rest, Short(utf8)(s))
    {
      TextBack(utf8, len, s, rest);
    }
    IsExact(Text(utf8), len, Always<string>(), Short(utf8));
  }

  // ---------- the loops ----------

  lemma {:induction false} BadStays<T>(c: Codec<T>, len: nat, k: nat, n: nat, bytes: seq<Byte>)
    requires k <= n && GetMany(c, len, k, bytes) == Bad
    ensures GetMany(c, len, n, bytes) == Bad
  {
    if k < n { BadStays(c, len, k, n - 1, bytes); }
  }

  method ReadVec<T>(c: Codec<T>, len: nat, assumed: nat, bytes: seq<Byte>) returns (r: Read<seq<T>>)
    requires assumed > 0
    ensures r == Vec(assumed, c).get(len, bytes)
  {
    var head := GetCapped(len / assumed, bytes);
    if head == Bad { return Bad; }
    var values: seq<T>, rest := [], head.rest;
    for k := 0 to head.value
      invariant GetMany(c, len, k, head.rest) == Got(values, rest)
    {
      var next := c.get(len, rest);
      if next.Bad? {
        BadStays(c, len, k + 1, head.value, head.rest);
        return Bad;
      }
      values, rest := values + [next.value], next.rest;
    }
    r := Got(values, rest);
  }

  method WriteVec<T>(c: Codec<T>, values: seq<T>, ghost assumed: nat) returns (out: seq<Byte>)
    requires assumed > 0
    ensures out == Vec(assumed, c).put(values)
  {
    out := Le(|values|, 8);
    for k := 0 to |values|
      invariant out == Le(|values|, 8) + PutMany(c, values[..k])
    {
      assert values[..k + 1][..k] == values[..k];
      out := out + c.put(values[k]);
    }
    assert values[..|values|] == values;
  }
}
