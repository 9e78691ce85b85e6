/**
 * The documentation store the exploration loop writes (self_explorer.py):
 * one record per element id, stored as the file `<id>.txt`, each record a
 * dictionary with the five action slots `tap`, `text`, `v_swipe`, `h_swipe`
 * and `long_press`. Here the directory is a map from id to record; reading
 * and writing the files (`str` and `ast.literal_eval`) is not modelled.
 */
module Docs {
  /** The five keys of a record. */
  datatype Slot = TapSlot | TextSlot | VSwipeSlot | HSwipeSlot | LongPressSlot

  type Record = map<Slot, string>

  /** The documentation directory: a record per element id. */
  type Store = map<string, Record>

  /** The record created for an element seen for the first time: every slot empty. */
  function EmptyRecord(): (r: Record)
    ensures forall s: Slot :: s in r && r[s] == ""
  {
    var r := map[TapSlot := "", TextSlot := "", VSwipeSlot := "", HSwipeSlot := "", LongPressSlot := ""];
    assert forall s: Slot :: s in r by {
      forall s: Slot ensures s in r { SlotCases(s); }
    }
    r
  }

  lemma SlotCases(s: Slot)
    ensures s == TapSlot || s == TextSlot || s == VSwipeSlot || s == HSwipeSlot || s == LongPressSlot
  {
  }

  /** A record that has all five slots, as every record the loop writes. */
  predicate Complete(rec: Record)
  {
    forall s: Slot :: s in rec
  }

  predicate WellFormed(docs: Store)
  {
    forall id :: id in docs ==> Complete(docs[id])
  }

  /**
   * The outcome of documenting one slot: a record without that key (Python's
   * `KeyError`), a slot already documented (the loop `continue`s), or the new store.
   */
  datatype Merge = MergeCrash | Kept | Wrote(docs: Store)

  /**
   * Documenting `doc` for slot `slot` of element `id`: an existing record is
   * read and left alone when the slot already holds a non-empty text; a new
   * record starts with every slot empty. The written text may itself be empty.
   */
  function MergeDoc(docs: Store, id: string, slot: Slot, doc: string): (r: Merge)
    ensures r.MergeCrash? <==> id in docs && slot !in docs[id]
    ensures r.Kept? <==> id in docs && slot in docs[id] && docs[id][slot] != ""
    ensures r.Wrote? ==> r.docs.Keys == docs.Keys + {id} && slot in r.docs[id] && r.docs[id][slot] == doc
  {
    if id in docs then
      var rec := docs[id];
      if slot !in rec then MergeCrash
      else if rec[slot] != "" then Kept
      else Wrote(docs[id := rec[slot := doc]])
    else Wrote(docs[id := EmptyRecord()[slot := doc]])
  }

  /** A write changes only the chosen slot of the chosen record; a new record has its other slots empty. */
  lemma MergeChangesOneSlot(docs: Store, id: string, slot: Slot, doc: string)
    requires MergeDoc(docs, id, slot, doc).Wrote?
    ensures var d := MergeDoc(docs, id, slot, doc).docs;
      (forall other :: other in docs && other != id ==> d[other] == docs[other]) &&
      (id in docs ==> d[id].Keys == docs[id].Keys) &&
      (id in docs ==> forall s :: s in docs[id] && s != slot ==> d[id][s] == docs[id][s]) &&
      (id !in docs ==> forall s: Slot :: s != slot ==> s in d[id] && d[id][s] == "")
  {
  }

  /** Every non-empty slot of `a` is still in `b` with the same text: documentation is never overwritten. */
  predicate Preserves(a: Store, b: Store)
  {
    a.Keys <= b.Keys &&
    forall id, s :: id in a && s in a[id] && a[id][s] != "" ==> s in b[id] && b[id][s] == a[id][s]
  }

  lemma PreservesTrans(a: Store, b: Store, c: Store)
    requires Preserves(a, b) && Preserves(b, c)
    ensures Preserves(a, c)
  {
  }

  /** A merge keeps every existing documentation text. */
  lemma MergePreserves(docs: Store, id: string, slot: Slot, doc: string)
    requires MergeDoc(docs, id, slot, doc).Wrote?
    ensures Preserves(docs, MergeDoc(docs, id, slot, doc).docs)
  {
    var d := MergeDoc(docs, id, slot, doc).docs;
    forall i, s | i in docs && s in docs[i] && docs[i][s] != ""
      ensures s in d[i] && d[i][s] == docs[i][s]
    {
      if i == id {
        assert s != slot;
      }
    }
  }

  /** On a store of complete records a merge never raises, and the store stays complete. */
  lemma MergeWellFormed(docs: Store, id: string, slot: Slot, doc: string)
    requires WellFormed(docs)
    ensures !MergeDoc(docs, id, slot, doc).MergeCrash?
    ensures MergeDoc(docs, id, slot, doc).Wrote? ==> WellFormed(MergeDoc(docs, id, slot, doc).docs)
  {
    assert id in docs ==> Complete(docs[id]);
    if MergeDoc(docs, id, slot, doc).Wrote? {
      var d := MergeDoc(docs, id, slot, doc).docs;
      forall i | i in d ensures Complete(d[i]) {
        if i == id && id !in docs {
          assert d[i] == EmptyRecord()[slot := doc];
        }
      }
    }
  }

  /** First write wins: once a non-empty text is written, documenting the same slot again keeps it. */
  lemma MergeFirstWriteWins(docs: Store, id: string, slot: Slot, doc: string, again: string)
    requires MergeDoc(docs, id, slot, doc).Wrote? && doc != ""
    ensures MergeDoc(MergeDoc(docs, id, slot, doc).docs, id, slot, again) == Kept
  {
  }

  /** The documented (id, slot) pairs: those whose text is non-empty. */
  function Filled(docs: Store): set<(string, Slot)>
  {
    set id, s | id in docs && s in docs[id] && docs[id][s] != "" :: (id, s)
  }

  /**
   * A write of a non-empty text documents exactly one new pair; a write of an
   * empty text documents none, though the loop still counts it.
   */
  lemma MergeFills(docs: Store, id: string, slot: Slot, doc: string)
    requires MergeDoc(docs, id, slot, doc).Wrote?
    ensures (id, slot) !in Filled(docs)
    ensures var d := MergeDoc(docs, id, slot, doc).docs;
      Filled(d) == Filled(docs) + (if doc != "" then {(id, slot)} else {})
  {
    var d := MergeDoc(docs, id, slot, doc).docs;
    MergeChangesOneSlot(docs, id, slot, doc);
    var extra: set<(string, Slot)> := if doc != "" then {(id, slot)} else {};
    forall p | p in Filled(d) ensures p in Filled(docs) + extra {
      var (i, s) := p;
      if i != id || s != slot {
        assert i in docs && s in docs[i] && docs[i][s] == d[i][s];
      }
    }
    forall p | p in Filled(docs) + extra ensures p in Filled(d) {
      var (i, s) := p;
      if p in Filled(docs) {
        assert i != id || s != slot;
        assert d[i][s] == docs[i][s];
      }
    }
  }
}
