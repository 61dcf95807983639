/** The handles a match is pulled through: one chunk a call, refused once the
    store is freed. */
module Handles {
  import opened Base

  /** What the matched view yields: a chunk of rows, or an error in its place. */
  datatype Chunk<Q> = Rows(rows: seq<Q>) | Broken

  function RowsOf<Q>(chunks: seq<Chunk<Q>>): (rows: seq<Q>) {
    if chunks == [] then []
    else (if chunks[0].Rows? then chunks[0].rows else []) + RowsOf(chunks[1..])
  }

  datatype Pull<T> = Payload(value: T) | Undefined | Thrown

  class QuadChunks<Q> {
    /** What is still to pull; nothing once that ended or failed. */
    var rows: Option<seq<Chunk<Q>>>
    /** Whether the store's handle is live. */
    var alive: bool
    /** How often the handle was freed. */
    var frees: nat

    /** The rows a pull may still bring. */
    ghost function Rest(): (rest: seq<Q>)
      reads this
    {
      if rows.Some? then RowsOf(rows.value) else []
    }

    /** How many pulls may still answer with rows. */
    ghost function Left(): (n: nat)
      reads this
    {
      if rows.Some? then |rows.value| + 1 else 0
    }

    /** The store was freed, or the view yields an error. */
    ghost predicate MayThrow()
      reads this
    {
      rows.Some? && (!alive || exists i :: 0 <= i < |rows.value| && rows.value[i].Broken?)
    }

    constructor (chunks: seq<Chunk<Q>>)
      ensures Rest() == RowsOf(chunks) && rows == Some(chunks) && alive && frees == 0
    {
      rows, alive, frees := Some(chunks), true, 0;
    }

    /** The next chunk that holds rows. Once ended or failed it only answers
        that there is none; it ends only when every row was pulled. */
    method Next() returns (r: Pull<seq<Q>>)
      requires frees == 0
      modifies this`rows
      ensures r.Payload? ==> r.value != [] && rows.Some? && r.value + Rest() == old(Rest()) && Left() < old(Left())
      ensures !r.Payload? ==> rows.None?
      ensures r.Undefined? ==> old(Rest()) == []
      ensures old(rows).None? ==> r.Undefined?
      ensures r.Thrown? ==> old(MayThrow())
      ensures MayThrow() ==> old(MayThrow())
    {
      if rows.None? {
        return Undefined;
      }
      if !alive {
        rows := None;
        return Thrown;
      }
      var chunks := rows.value;
      while chunks != []
        invariant RowsOf(chunks) == old(Rest())
        invariant |chunks| <= |old(rows).value| && chunks == old(rows).value[|old(rows).value| - |chunks|..]
        decreases |chunks|
      {
        var chunk := chunks[0];
        chunks := chunks[1..];
        if chunk.Broken? {
          rows := None;
          return Thrown;
        }
        if chunk.rows != [] {
          rows := Some(chunks);
          return Payload(chunk.rows);
        }
      }
      rows := None;
      r := Undefined;
    }

    method Free()
      requires frees == 0
      modifies this`frees
      ensures frees == 1
    {
      frees := 1;
    }
  }

  /** One item a call: a chunk of codes. */
  class ItemHandle<T> {
    var items: Option<seq<Option<T>>>
    var alive: bool
    var frees: nat

    /** The items before the first error. */
    ghost function Rest(): (rest: seq<T>)
      reads this
    {
      if items.Some? then Good(items.value) else []
    }

    constructor (items: seq<Option<T>>)
      ensures this.items == Some(items) && alive && frees == 0 && Rest() == Good(items)
    {
      this.items, alive, frees := Some(items), true, 0;
    }

    method Next() returns (r: Pull<T>)
      requires frees == 0
      modifies this`items
      ensures r.Payload? ==> [r.value] + Rest() == old(Rest()) && items.Some?
      ensures !r.Payload? ==> items.None?
      ensures r.Undefined? ==> old(Rest()) == []
      ensures r.Thrown? ==> old(items).Some? && (!alive || (old(items).value != [] && old(items).value[0].None?))
    {
      if items.None? {
        return Undefined;
      }
      if !alive {
        items := None;
        return Thrown;
      }
      if items.value == [] {
        items := None;
        return Undefined;
      }
      var item := items.value[0];
      if item.None? {
        items := None;
        return Thrown;
      }
      items := Some(items.value[1..]);
      r := Payload(item.value);
    }

    method Free()
      requires frees == 0
      modifies this`frees
      ensures frees == 1
    {
      frees := 1;
    }
  }

  /** The items before the first error. */
  function Good<T>(items: seq<Option<T>>): (good: seq<T>) {
    if items == [] || items[0].None? then [] else [items[0].value] + Good(items[1..])
  }
}
