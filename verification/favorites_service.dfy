/** The favorites store: an ordered list of product ids kept in one
    device-storage cell under the key "@favorites". Every operation reads
    the whole list, changes it and writes it back; storage faults are
    parameters, and every fault is swallowed (the operations return no
    error to their caller). */
module FavoritesService {
  import opened Wrappers
  import opened Seqs

  /** The storage cell: `None` when the key is absent. The JSON encoding is
      taken to round-trip, so the cell holds the decoded list. */
  type Cell = Option<seq<string>>

  /** Whether the storage read and the storage write of one call succeed. */
  datatype Io = Io(readOk: bool, writeOk: bool)

  const Healthy := Io(true, true)

  /** `getFavorites`: the stored list; an absent key or a failed read
      (including a parse error) gives the empty list. */
  function GetFavorites(cell: Cell, readOk: bool): seq<string> {
    if readOk then cell.GetOr([]) else []
  }

  /** What a successful read returns: the durable contents of the cell. */
  function Contents(cell: Cell): seq<string> {
    GetFavorites(cell, true)
  }

  /** `addFavorite`: appends `id` unless the list read already holds it; no
      write happens in that case. A failed write leaves the cell as it was. */
  function AddFavorite(cell: Cell, id: string, io: Io): (r: Cell)
    ensures !io.writeOk ==> r == cell
    ensures io.readOk && id in Contents(cell) ==> r == cell
    ensures io.writeOk ==> id in Contents(r)
  {
    var favorites := GetFavorites(cell, io.readOk);
    if id in favorites then cell
    else if io.writeOk then Some(favorites + [id])
    else cell
  }

  /** `removeFavorite`: writes back the list read with every `id` filtered out. */
  function RemoveFavorite(cell: Cell, id: string, io: Io): (r: Cell)
    ensures !io.writeOk ==> r == cell
    ensures io.writeOk ==> id !in Contents(r)
    ensures io.writeOk && io.readOk ==> IsSubsequence(Contents(r), Contents(cell))
  {
    var favorites := GetFavorites(cell, io.readOk);
    var keep := (x: string) => x != id;
    FilterIsSubsequence(keep, favorites);
    if io.writeOk then Some(Filter(keep, favorites)) else cell
  }

  /** `isFavorite`: membership in the list read; `false` when the read fails. */
  function IsFavorite(cell: Cell, id: string, readOk: bool): (b: bool)
    ensures b ==> readOk && cell.Some?
  {
    id in GetFavorites(cell, readOk)
  }

  /** `clearFavorites`: removes the key; a failed removal changes nothing. */
  function ClearFavorites(cell: Cell, removeOk: bool): (r: Cell)
    ensures removeOk ==> GetFavorites(r, true) == []
    ensures !removeOk ==> r == cell
  {
    if removeOk then None else cell
  }

  // ---- properties of single operations ------------------------------------

  /** An absent key and a failed read both read as the empty list, and a
      written list reads back unchanged. */
  lemma ReadDefaults(cell: Cell, ids: seq<string>)
    ensures GetFavorites(None, true) == []
    ensures GetFavorites(cell, false) == []
    ensures GetFavorites(Some(ids), true) == ids
  {
  }

  /** Adding an id that is not stored appends it at the end; the other ids
      keep their order. */
  lemma AddAppends(cell: Cell, id: string)
    requires id !in Contents(cell)
    ensures Contents(AddFavorite(cell, id, Healthy)) == Contents(cell) + [id]
  {
  }

  /** Adding twice is adding once, whenever the first add's write succeeds
      and the second add's read does. */
  lemma AddIdempotent(cell: Cell, id: string, io1: Io, io2: Io)
    requires io1.writeOk && io2.readOk
    ensures AddFavorite(AddFavorite(cell, id, io1), id, io2) == AddFavorite(cell, id, io1)
  {
  }

  /** Removing keeps the other ids in order and drops every copy of `id`;
      removing an absent id leaves the contents as they were. */
  lemma RemoveFilters(cell: Cell, id: string)
    ensures Contents(RemoveFavorite(cell, id, Healthy)) == Filter((x: string) => x != id, Contents(cell))
    ensures id !in Contents(cell) ==> Contents(RemoveFavorite(cell, id, Healthy)) == Contents(cell)
  {
    if id !in Contents(cell) {
      FilterAll((x: string) => x != id, Contents(cell));
    }
  }

  /** `isFavorite` is membership in the durable list when the read succeeds. */
  lemma IsFavoriteIsMembership(cell: Cell, id: string)
    ensures IsFavorite(cell, id, true) <==> id in Contents(cell)
    ensures !IsFavorite(cell, id, false)
  {
  }

  /** A failed read inside `addFavorite` reads as the empty list, so the
      write that follows replaces every stored id with `id` alone. */
  lemma AddAfterFailedReadKeepsOnlyId(cell: Cell, id: string)
    ensures Contents(AddFavorite(cell, id, Io(false, true))) == [id]
  {
  }

  /** The same holds for `removeFavorite`: a failed read filters the empty
      list, and the write that follows empties the store. */
  lemma RemoveAfterFailedReadEmpties(cell: Cell, id: string)
    ensures Contents(RemoveFavorite(cell, id, Io(false, true))) == []
  {
  }

  // ---- sequences of operations --------------------------------------------

  datatype Op = Add(id: string) | Remove(id: string) | Clear

  /** One call with its storage faults; for `Clear` only `io.writeOk`
      (the key removal) matters. */
  datatype Step = Step(op: Op, io: Io)

  function Apply(cell: Cell, step: Step): Cell {
    match step.op
    case Add(id) => AddFavorite(cell, id, step.io)
    case Remove(id) => RemoveFavorite(cell, id, step.io)
    case Clear => ClearFavorites(cell, step.io.writeOk)
  }

  function Run(cell: Cell, steps: seq<Step>): Cell
    decreases |steps|
  {
    if |steps| == 0 then cell else Run(Apply(cell, steps[0]), steps[1..])
  }

  function IdSet(ids: seq<string>): set<string> {
    set x | x in ids
  }

  /** The set of ids the calls should leave: the net effect of the
      operations on a set. */
  function NetEffect(ids: set<string>, steps: seq<Step>): set<string>
    decreases |steps|
  {
    if |steps| == 0 then ids
    else
      var next := match steps[0].op
        case Add(id) => ids + {id}
        case Remove(id) => ids - {id}
        case Clear => {};
      NetEffect(next, steps[1..])
  }

  /** Whatever faults occur, no sequence of calls puts a duplicate id into
      a duplicate-free store. */
  lemma {:induction false} RunKeepsNoDup(cell: Cell, steps: seq<Step>)
    requires NoDup(Contents(cell))
    ensures NoDup(Contents(Run(cell, steps)))
    decreases |steps|
  {
    if |steps| > 0 {
      var next := Apply(cell, steps[0]);
      if steps[0].op.Remove? && steps[0].io.writeOk {
        FilterNoDup((x: string) => x != steps[0].op.id, GetFavorites(cell, steps[0].io.readOk));
      }
      RunKeepsNoDup(next, steps[1..]);
    }
  }

  /** With no storage faults, the stored ids are exactly the net effect of
      the calls. */
  lemma {:induction false} RunIsNetEffect(cell: Cell, steps: seq<Step>)
    requires forall i :: 0 <= i < |steps| ==> steps[i].io == Healthy
    ensures IdSet(Contents(Run(cell, steps))) == NetEffect(IdSet(Contents(cell)), steps)
    decreases |steps|
  {
    if |steps| > 0 {
      var next := Apply(cell, steps[0]);
      var before := IdSet(Contents(cell));
      var after := IdSet(Contents(next));
      match steps[0].op {
        case Add(id) =>
          assert after == before + {id};
        case Remove(id) =>
          assert after == before - {id};
        case Clear =>
          assert after == {};
      }
      RunIsNetEffect(next, steps[1..]);
    }
  }
}
