/**
 The animal attribute table. The data file is stored trait-first
 (trait -> animal -> value); at start-up it is turned animal-first
 (animal -> trait -> value), with the animals taken from the keys of the
 `Phylum` trait.
 */
module AttributeTable {
  import opened Wrappers
  import opened JsObject

  /** A name -> value dictionary of strings. */
  type Row = Obj<string, string>

  /** A dictionary of rows: trait -> animal -> value as read, animal -> trait -> value once transposed. */
  type Table = Obj<string, Row>

  /** The trait whose animals define the animal universe. */
  const PhylumTrait: string := "Phylum"

  /** Both levels of the table are well-formed dictionaries. */
  ghost predicate WellFormed(t: Table) {
    t.Valid() && forall k :: k in t.entries ==> t.entries[k].Valid()
  }

  /** The traits among `ts`, in order, for which `raw` records a value of `animal`. */
  ghost function TraitsOf(raw: Table, animal: string, ts: seq<string>): seq<string>
  {
    if |ts| == 0 then []
    else
      var rest := TraitsOf(raw, animal, ts[..|ts| - 1]);
      var t := ts[|ts| - 1];
      if t in raw.entries && animal in raw.entries[t].entries then rest + [t] else rest
  }

  lemma {:induction false} TraitsOfMembers(raw: Table, animal: string, ts: seq<string>)
    ensures forall t :: t in TraitsOf(raw, animal, ts) <==> t in ts && t in raw.entries && animal in raw.entries[t].entries
  {
    if |ts| > 0 {
      TraitsOfMembers(raw, animal, ts[..|ts| - 1]);
      assert ts == ts[..|ts| - 1] + [ts[|ts| - 1]];
    }
  }

  /** `raw[trait][animal]`, with `None` for `undefined`. */
  function Lookup(raw: Table, t: string, animal: string): Option<string> {
    if t in raw.entries then raw.entries[t].Get(animal) else None
  }

  /**
   `row` is the transposed row of `animal`: it holds a trait exactly when `raw`
   records a value of `animal` for it, with that value, and lists its traits in
   the order `raw` lists them.
   */
  ghost predicate IsRowOf(raw: Table, animal: string, row: Row) {
    && row.Valid()
    && (forall t :: row.Get(t) == Lookup(raw, t, animal))
    && row.order == TraitsOf(raw, animal, raw.order)
  }

  /**
   The row of one animal, built as the inner `for (const trait in rawAnimalData)`
   loop does: every trait of `raw` that records a value for `animal`, in trait order.
   */
  method AnimalRow(raw: Table, animal: string) returns (row: Row)
    requires WellFormed(raw)
    ensures IsRowOf(raw, animal, row)
    ensures forall t :: t in row.order <==> t in raw.order && Lookup(raw, t, animal).Some?
  {
    row := Empty();
    for j := 0 to |raw.order|
      invariant row.Valid()
      invariant row.order == TraitsOf(raw, animal, raw.order[..j])
      invariant forall t :: row.Get(t) == if t in raw.order[..j] then Lookup(raw, t, animal) else None
    {
      var t := raw.order[j];
      assert raw.order[..j + 1] == raw.order[..j] + [t];
      assert raw.order[..j + 1][..j] == raw.order[..j];
      assert t !in raw.order[..j];
      assert row.Get(t) == None;
      if animal in raw.entries[t].entries {
        row := row.Put(t, raw.entries[t].entries[animal]);
      }
    }
    assert raw.order[..|raw.order|] == raw.order;
    TraitsOfMembers(raw, animal, raw.order);
  }

  /**
   The start-up transposition. `None` models the TypeError thrown by
   `Object.keys` when the data has no `Phylum` trait; otherwise the animals are
   the keys of `Phylum`, in their order, each with its transposed row.
   */
  method Transpose(raw: Table) returns (r: Option<Table>)
    requires WellFormed(raw)
    ensures r.None? <==> PhylumTrait !in raw.entries
    ensures r.Some? ==> r.value.Valid() && r.value.order == raw.entries[PhylumTrait].order
    ensures r.Some? ==> forall a :: a in r.value.entries ==> IsRowOf(raw, a, r.value.entries[a])
  {
    if PhylumTrait !in raw.entries {
      return None;
    }
    var names := raw.entries[PhylumTrait].order;
    var table: Table := Empty();
    for i := 0 to |names|
      invariant table.Valid()
      invariant table.order == names[..i]
      invariant forall a :: a in table.entries ==> IsRowOf(raw, a, table.entries[a])
    {
      var row := AnimalRow(raw, names[i]);
      assert names[i] !in names[..i];
      table := table.Put(names[i], row);
      assert names[..i + 1] == names[..i] + [names[i]];
    }
    assert names[..|names|] == names;
    return Some(table);
  }
}
