/**
 * The `sectionRefs` and `triggerRefs` stores of the hook: plain objects keyed by id,
 * written by overwrite. A JavaScript object enumerates its non-numeric keys in
 * insertion order, and overwriting a key keeps its place; the registry keeps that
 * order explicitly next to the map of handles.
 */
module Refs {
  import opened Wrappers

  /** Section and trigger ids are caller-supplied strings. */
  type Id = string

  datatype Registry<H> = Registry(order: seq<Id>, handles: map<Id, H>) {

    /** Every key is listed exactly once in `order`, and `order` lists only keys. */
    ghost predicate Valid() {
      && (forall i, j :: 0 <= i < j < |order| ==> order[i] != order[j])
      && (forall k :: k in handles <==> k in order)
    }

    /** The handle stored under `id`, if any (`sectionRefs.current[id]`). */
    function Lookup(id: Id): Option<H> {
      if id in handles then Some(handles[id]) else None
    }
  }

  /** The empty store the hook starts with (`useRef({})`). */
  function Empty<H>(): (r: Registry<H>)
    ensures r.Valid()
    ensures forall id :: r.Lookup(id) == None
  {
    Registry([], map[])
  }

  /**
   * `registerSectionRef(id)(ref)` and `registerTriggerRef(id)(ref)`: store `h` under `id`,
   * replacing any earlier handle. A new id goes to the end of the enumeration order; an
   * id already present keeps its position.
   */
  function Register<H>(r: Registry<H>, id: Id, h: H): (r': Registry<H>)
    requires r.Valid()
    ensures r'.Valid()
    ensures r'.Lookup(id) == Some(h)
    ensures forall other :: other != id ==> r'.Lookup(other) == r.Lookup(other)
    ensures id in r.handles ==> r'.order == r.order
    ensures id !in r.handles ==> r'.order == r.order + [id]
  {
    if id in r.handles then Registry(r.order, r.handles[id := h])
    else Registry(r.order + [id], r.handles[id := h])
  }

  /** Registering twice under one id is the same as registering the second handle alone. */
  lemma RegisterOverwrites<H>(r: Registry<H>, id: Id, h1: H, h2: H)
    requires r.Valid()
    ensures Register(Register(r, id, h1), id, h2) == Register(r, id, h2)
  {
  }
}
