/** The three backends the server and the worker share: the Redis hash
    `values` (the live result table), the Redis channel `insert` (every
    payload published on it, in order) and the Postgres table `values`
    (the durable log of accepted indices). */
module Stores {
  import opened GoInt
  import opened Strconv

  /** A field of the Redis hash: the placeholder the server writes, or the
      number the worker computed. */
  datatype Value = Placeholder | Computed(n: int)

  /** The text the server writes before any result exists. */
  const PlaceholderText: string := "Nothing yet!"

  /** What Redis holds for a value: the placeholder text or the decimal
      number. No number is spelled like the placeholder. */
  function Render(v: Value): (r: string)
    ensures r == PlaceholderText <==> v.Placeholder?
  {
    match v
    case Placeholder => PlaceholderText
    case Computed(n) => Itoa(n)
  }

  /** The live view can tell the two apart: the placeholder text is not a
      number, and a computed `int` reads back as itself. */
  lemma RenderDistinguishes(v: Value)
    requires v.Computed? ==> InRange(v.n)
    ensures Atoi(Render(v)) == if v.Placeholder? then None else Some(v.n)
  {
    match v
    case Placeholder =>
      assert !IsDigit(PlaceholderText[0]);
    case Computed(n) =>
      AtoiItoa(n);
  }

  /** The Postgres column `number int` holds 32-bit integers. */
  const ColumnMin: int := -0x8000_0000
  const ColumnMax: int := 0x7FFF_FFFF

  predicate FitsColumn(n: int) {
    ColumnMin <= n <= ColumnMax
  }

  /** The rows an `INSERT` of `n` adds: one, or none when `n` does not fit the
      column, the statement fails and its error is ignored. */
  function InsertedRows(n: int): seq<int>
  {
    if FitsColumn(n) then [n] else []
  }

  /** A snapshot of all three backends. */
  datatype State = State(table: map<int, Value>, published: seq<string>, log: seq<int>)

  /** The backends as one mutable object; each method is one backend call. */
  class Backends {
    var table: map<int, Value>
    var published: seq<string>
    var log: seq<int>

    constructor ()
      ensures table == map[] && published == [] && log == []
    {
      table, published, log := map[], [], [];
    }

    function Snapshot(): State
      reads this
    {
      State(table, published, log)
    }

    /** `HSET values key v`: an upsert of one field, last write wins. */
    method HSet(key: int, v: Value)
      modifies this
      ensures table == old(table)[key := v]
      ensures published == old(published) && log == old(log)
    {
      table := table[key := v];
    }

    /** `PUBLISH insert payload`. */
    method Publish(payload: string)
      modifies this
      ensures published == old(published) + [payload]
      ensures table == old(table) && log == old(log)
    {
      published := published + [payload];
    }

    /** `INSERT INTO values(number) VALUES(n)`: a value outside the column's
        range is refused by Postgres, and the caller ignores the error. */
    method Insert(n: int)
      modifies this
      ensures log == old(log) + (if FitsColumn(n) then [n] else [])
      ensures table == old(table) && published == old(published)
    {
      if FitsColumn(n) {
        log := log + [n];
      }
    }
  }
}
