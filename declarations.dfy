/** The declaration table of an organizer: what `organize` turns its
    arguments into.  `organize` flattens its (possibly nested) argument list
    and maps every element to a `{ interactor:, condition: }` entry; a bare
    step reference gets the always-true condition, a hash is kept as given. */
module Declarations {

  /** One argument of `organize`: a bare step reference, a hash carrying a
      step and its condition, or an array of further arguments. */
  datatype Decl<U, G> =
    | Bare(unit: U)
    | Hash(interactor: U, condition: G)
    | Nested(items: seq<Decl<U, G>>)

  /** The condition stored in an entry: the `-> { true }` lambda that a bare
      reference receives, or the value a hash carried under `:condition`. */
  datatype Condition<G> = AlwaysTrue | Given(guard: G)

  /** One row of the table: the `{ interactor:, condition: }` hash. */
  datatype Entry<U, G> = Entry(interactor: U, condition: Condition<G>)

  predicate IsLeaf<U, G>(d: Decl<U, G>) {
    !d.Nested?
  }

  /** No element is an array: what Ruby's `flatten` leaves behind. */
  predicate IsFlat<U, G>(ds: seq<Decl<U, G>>) {
    forall i :: 0 <= i < |ds| ==> IsLeaf(ds[i])
  }

  /** Ruby's recursive `Array#flatten`: arrays are spliced in place, in
      order; hashes and bare references are elements. */
  function Flatten<U, G>(ds: seq<Decl<U, G>>): (r: seq<Decl<U, G>>)
    ensures IsFlat(r)
    decreases ds
  {
    if ds == [] then []
    else
      var head := if ds[0].Nested? then Flatten(ds[0].items) else [ds[0]];
      head + Flatten(ds[1..])
  }

  /** The normalisation of one flattened element (the block of `map`). */
  function ToEntry<U, G>(d: Decl<U, G>): (r: Entry<U, G>)
    requires IsLeaf(d)
    ensures d.Bare? <==> r.condition == AlwaysTrue
    ensures FromEntry(r) == d
  {
    match d
    case Bare(u) => Entry(u, AlwaysTrue)
    case Hash(u, g) => Entry(u, Given(g))
  }

  /** The declaration an entry was normalised from. */
  function FromEntry<U, G>(e: Entry<U, G>): (r: Decl<U, G>)
    ensures IsLeaf(r)
    ensures r.Bare? <==> e.condition == AlwaysTrue
  {
    match e.condition
    case AlwaysTrue => Bare(e.interactor)
    case Given(g) => Hash(e.interactor, g)
  }

  /** `map` over the flattened arguments: one entry per element, in order. */
  function Normalize<U, G>(flat: seq<Decl<U, G>>): (r: seq<Entry<U, G>>)
    requires IsFlat(flat)
    ensures |r| == |flat|
    ensures forall i :: 0 <= i < |flat| ==> r[i] == ToEntry(flat[i])
  {
    if flat == [] then [] else [ToEntry(flat[0])] + Normalize(flat[1..])
  }

  /** The table that `organize(*decls)` assigns to `@organized`. */
  function Table<U, G>(decls: seq<Decl<U, G>>): (r: seq<Entry<U, G>>)
    ensures |r| == |Flatten(decls)|
    ensures forall i :: 0 <= i < |r| ==> r[i] == ToEntry(Flatten(decls)[i])
  {
    Normalize(Flatten(decls))
  }

  /** Maps every entry back to the declaration it came from. */
  function Denormalize<U, G>(table: seq<Entry<U, G>>): (r: seq<Decl<U, G>>)
    ensures IsFlat(r)
  {
    if table == [] then [] else [FromEntry(table[0])] + Denormalize(table[1..])
  }

  /** Flattening commutes with concatenating argument lists. */
  lemma {:induction false} FlattenAppend<U, G>(xs: seq<Decl<U, G>>, ys: seq<Decl<U, G>>)
    ensures Flatten(xs + ys) == Flatten(xs) + Flatten(ys)
  {
    if xs == [] {
      assert xs + ys == ys;
    } else {
      assert (xs + ys)[0] == xs[0];
      assert (xs + ys)[1..] == xs[1..] + ys;
      FlattenAppend(xs[1..], ys);
    }
  }

  /** An argument list without arrays is left as it is: nothing is
      reordered, dropped or duplicated. */
  lemma {:induction false} FlattenOfFlat<U, G>(ds: seq<Decl<U, G>>)
    requires IsFlat(ds)
    ensures Flatten(ds) == ds
  {
    if ds != [] {
      FlattenOfFlat(ds[1..]);
    }
  }

  /** Flattening twice is flattening once. */
  lemma {:induction false} FlattenIdempotent<U, G>(ds: seq<Decl<U, G>>)
    ensures Flatten(Flatten(ds)) == Flatten(ds)
  {
    FlattenOfFlat(Flatten(ds));
  }

  /** An array argument contributes its elements at its own position:
      `organize(a, [b, c], d)` declares the same table as
      `organize(a, b, c, d)`, and `organize([a, b])` the same as
      `organize(a, b)`. */
  lemma TableOfNested<U, G>(xs: seq<Decl<U, G>>, ys: seq<Decl<U, G>>, zs: seq<Decl<U, G>>)
    ensures Table(xs + [Nested(ys)] + zs) == Table(xs + ys + zs)
  {
    calc {
      Flatten(xs + [Nested(ys)] + zs);
      { FlattenAppend(xs + [Nested(ys)], zs); }
      Flatten(xs + [Nested(ys)]) + Flatten(zs);
      { FlattenAppend(xs, [Nested(ys)]); }
      Flatten(xs) + Flatten([Nested(ys)]) + Flatten(zs);
      { assert Flatten([Nested(ys)]) == Flatten(ys) + Flatten<U, G>([]); }
      Flatten(xs) + Flatten(ys) + Flatten(zs);
      { FlattenAppend(xs, ys); }
      Flatten(xs + ys) + Flatten(zs);
      { FlattenAppend(xs + ys, zs); }
      Flatten(xs + ys + zs);
    }
  }

  /** The table of a concatenated argument list is the concatenation of the
      tables, so every argument's entries stay in declaration order. */
  lemma {:induction false} TableOfConcat<U, G>(xs: seq<Decl<U, G>>, ys: seq<Decl<U, G>>)
    ensures Table(xs + ys) == Table(xs) + Table(ys)
  {
    FlattenAppend(xs, ys);
    var a, b := Flatten(xs), Flatten(ys);
    var t := Normalize(a + b);
    assert t == Normalize(a) + Normalize(b) by {
      assert |t| == |Normalize(a) + Normalize(b)|;
      forall i | 0 <= i < |t|
        ensures t[i] == (Normalize(a) + Normalize(b))[i]
      {
        if i < |a| {
          assert (a + b)[i] == a[i];
        } else {
          assert (a + b)[i] == b[i - |a|];
        }
      }
    }
  }

  /** Every entry of the table records the flattened declaration it came
      from: the table loses nothing of its arguments. */
  lemma {:induction false} TableRoundTrip<U, G>(decls: seq<Decl<U, G>>)
    ensures Denormalize(Table(decls)) == Flatten(decls)
  {
    NormalizeRoundTrip(Flatten(decls));
  }

  lemma {:induction false} NormalizeRoundTrip<U, G>(flat: seq<Decl<U, G>>)
    requires IsFlat(flat)
    ensures Denormalize(Normalize(flat)) == flat
  {
    if flat != [] {
      NormalizeRoundTrip(flat[1..]);
      assert Normalize(flat)[1..] == Normalize(flat[1..]);
    }
  }

  /** Every table of entries is the table of some argument list: of the bare
      references and hashes it records. */
  lemma {:induction false} DenormalizeRoundTrip<U, G>(table: seq<Entry<U, G>>)
    ensures Table(Denormalize(table)) == table
  {
    FlattenOfFlat(Denormalize(table));
    DenormalizeNormalize(table);
  }

  lemma {:induction false} DenormalizeNormalize<U, G>(table: seq<Entry<U, G>>)
    ensures Normalize(Denormalize(table)) == table
  {
    if table != [] {
      DenormalizeNormalize(table[1..]);
      assert Denormalize(table)[1..] == Denormalize(table[1..]);
    }
  }
}
