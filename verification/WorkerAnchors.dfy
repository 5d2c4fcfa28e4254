/** Where records of a worker thread are placed on the main thread's time line. */
module WorkerAnchors {
  import opened Numbers
  import opened Wrappers

  /** From spawning to joining, in main-thread records. */
  datatype Window = Window(spawned: nat, ended: nat)

  /** `i` parts in `parts` of a span; the product saturates. */
  function Share(i: nat, span: nat, parts: nat): nat
    requires parts > 0
  {
    Min(i * span, U64_MAX) / parts
  }

  /** Record `i` of `len`, placed proportionally in the window. */
  function Anchor(window: Option<Window>, i: nat, len: nat, fallback: nat): nat {
    match window
    case None => fallback
    case Some(w) =>
      if len <= 1 || w.ended <= w.spawned then w.spawned else w.spawned + Share(i, w.ended - w.spawned, len - 1)
  }

  lemma NoShare(span: nat, parts: nat)
    requires parts > 0
    ensures Share(0, span, parts) == 0
  {}

  lemma ShareGrows(span: nat, i: nat, j: nat, parts: nat)
    requires parts > 0 && i <= j
    ensures Share(i, span, parts) <= Share(j, span, parts)
  {
    Scales(i, j, span);
    DivGrows(Min(i * span, U64_MAX), Min(j * span, U64_MAX), parts);
  }

  /** All parts together are the whole span, unless the product saturates; then they fall short. */
  lemma WholeShare(span: nat, parts: nat)
    requires parts > 0
    ensures Share(parts, span, parts) <= span
    ensures Share(parts, span, parts) == span <==> parts * span <= U64_MAX
  {
    var product := parts * span;
    DivModIs(product, parts, span, 0);
    if product > U64_MAX { FallsShort(U64_MAX, parts, span, product); }
  }

  lemma FallsShort(x: nat, parts: nat, span: nat, product: nat)
    requires parts > 0 && product == parts * span && x < product
    ensures x / parts < span
  {}

  /** Records keep their order and stay inside the window, the first at its start. */
  lemma AnchorsInWindow(w: Window, i: nat, j: nat, len: nat, fallback: nat)
    requires w.spawned <= w.ended && i <= j < len
    ensures w.spawned <= Anchor(Some(w), i, len, fallback) <= Anchor(Some(w), j, len, fallback) <= w.ended
    ensures Anchor(Some(w), 0, len, fallback) == w.spawned
  {
    hide Share;
    if len > 1 && w.ended > w.spawned {
      var span, parts := w.ended - w.spawned, len - 1;
      NoShare(span, parts);
      ShareGrows(span, i, j, parts);
      ShareGrows(span, j, parts, parts);
      WholeShare(span, parts);
    }
  }

  /** The last record reaches the window's end exactly when the product does not saturate. */
  lemma LastAnchorIff(w: Window, len: nat, fallback: nat)
    requires w.spawned < w.ended && len > 1
    ensures Anchor(Some(w), len - 1, len, fallback) == w.ended <==> (len - 1) * (w.ended - w.spawned) <= U64_MAX
  {
    hide Share;
    WholeShare(w.ended - w.spawned, len - 1);
  }

  /** In between, record `i` stands where `i` of `len - 1` equal parts of the window end, rounded down. */
  lemma AnchorsProportional(w: Window, i: nat, len: nat, fallback: nat)
    requires w.spawned < w.ended && i < len && len > 1 && i * (w.ended - w.spawned) <= U64_MAX
    ensures var past := Anchor(Some(w), i, len, fallback) - w.spawned;
      past * (len - 1) <= i * (w.ended - w.spawned) < (past + 1) * (len - 1)
  {
    var product, parts := i * (w.ended - w.spawned), len - 1;
    var share := Share(i, w.ended - w.spawned, parts);
    assert product == share * parts + product % parts;
    assert (share + 1) * parts == share * parts + parts;
  }
}
