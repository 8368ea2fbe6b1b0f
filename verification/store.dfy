/**
 * Persisting the reverse map (FpCatalogue.store_to_sqlite).
 *
 * The two tables `molecules(id PRIMARY KEY, smiles)` and
 * `fragments(id AUTOINCREMENT, smiles, mol_id REFERENCES molecules(id))` are
 * row sequences. One call opens a transaction, inserts rows, and commits at the
 * end; an exception before the commit leaves both tables as they were.
 *
 * As written, the molecule loop inserts one row per dict key, and the fragment
 * loop then reads `mol_id` and `mol_info` left over from the molecule loop, so
 * only the last key's fragments are written, and an empty dict makes the
 * fragment loop read unbound names. `StoreToSqliteOwned` is the corrected
 * variant in which every molecule's fragments are written under its own id.
 */
module Store {
  import opened ReverseIndex

  datatype MoleculeRow = MoleculeRow(id: MolId, smiles: Smiles)

  /** A `fragments` row; the AUTOINCREMENT row id is not modelled. */
  datatype FragmentRow = FragmentRow(smiles: Smiles, molId: MolId)

  datatype StoreError =
    | UnboundLoopVariable          // `mol_info` / `mol_id` read after a loop that never ran
    | DuplicateMolecule(id: MolId) // the PRIMARY KEY of `molecules` rejects an id already stored

  /** The rows one call appends to each table. */
  datatype Rows = Rows(molecules: seq<MoleculeRow>, fragments: seq<FragmentRow>)

  datatype StoreResult = Committed(rows: Rows) | Failed(error: StoreError)

  function Ids(rows: seq<MoleculeRow>): set<MolId>
  {
    set r | r in rows :: r.id
  }

  /** The `id` column of a table, in row order. */
  function RowIds(rows: seq<MoleculeRow>): (ids: seq<MolId>)
    ensures |ids| == |rows| && forall t :: 0 <= t < |rows| ==> ids[t] == rows[t].id
  {
    seq(|rows|, t requires 0 <= t < |rows| => rows[t].id)
  }

  /** The PRIMARY KEY constraint of `molecules`. */
  ghost predicate UniqueIds(rows: seq<MoleculeRow>)
  {
    Distinct(RowIds(rows))
  }

  /** The FOREIGN KEY constraint of `fragments`: each row names a stored molecule. */
  ghost predicate ForeignKeys(molecules: seq<MoleculeRow>, fragments: seq<FragmentRow>)
  {
    forall t :: 0 <= t < |fragments| ==> fragments[t].molId in Ids(molecules)
  }

  /** One `molecules` row per dict key, in insertion order. */
  function MoleculeRows(rm: ReverseMap): seq<MoleculeRow>
    requires WellFormed(rm)
  {
    seq(|rm.keys|, t requires 0 <= t < |rm.keys| => MoleculeRow(rm.keys[t], rm.entries[rm.keys[t]].smiles))
  }

  /** A fragment list written as rows that all carry `id`. */
  function Owned(frags: seq<Smiles>, id: MolId): seq<FragmentRow>
  {
    if frags == [] then [] else Owned(frags[..|frags| - 1], id) + [FragmentRow(frags[|frags| - 1], id)]
  }

  /** The first key, in insertion order, whose id is already in `stored`. */
  function FirstClash(stored: set<MolId>, keys: seq<MolId>): (c: seq<MolId>)
    ensures |c| <= 1
  {
    if keys == [] then []
    else
      var c := FirstClash(stored, keys[..|keys| - 1]);
      if c != [] then c else if keys[|keys| - 1] in stored then [keys[|keys| - 1]] else []
  }

  /** What `store_to_sqlite` appends, or the exception it raises, given the rows already stored. */
  function StoreAsWritten(existing: seq<MoleculeRow>, rm: ReverseMap): StoreResult
    requires WellFormed(rm)
  {
    var clash := FirstClash(Ids(existing), rm.keys);
    if clash != [] then Failed(DuplicateMolecule(clash[0]))
    else if rm.keys == [] then Failed(UnboundLoopVariable)
    else
      var last := rm.keys[|rm.keys| - 1];
      Committed(Rows(MoleculeRows(rm), Owned(rm.entries[last].fragments, last)))
  }

  /** Every molecule's fragment rows, molecule by molecule in key order. */
  function AllOwned(rm: ReverseMap, keys: seq<MolId>): seq<FragmentRow>
    requires forall k :: k in keys ==> k in rm.entries
  {
    if keys == [] then []
    else
      var k := keys[|keys| - 1];
      AllOwned(rm, keys[..|keys| - 1]) + Owned(rm.entries[k].fragments, k)
  }

  /** The corrected store: every fragment row carries the molecule it was found in. */
  function StoreOwned(existing: seq<MoleculeRow>, rm: ReverseMap): StoreResult
    requires WellFormed(rm)
  {
    var clash := FirstClash(Ids(existing), rm.keys);
    if clash != [] then Failed(DuplicateMolecule(clash[0]))
    else Committed(Rows(MoleculeRows(rm), AllOwned(rm, rm.keys)))
  }

  /** The smiles of the rows that carry `id`, in row order. */
  function FragmentsOf(rows: seq<FragmentRow>, id: MolId): seq<Smiles>
  {
    if rows == [] then []
    else
      var r := rows[|rows| - 1];
      FragmentsOf(rows[..|rows| - 1], id) + (if r.molId == id then [r.smiles] else [])
  }

  /** The database file `<outdir>/mol_to_fragments.db`: its two tables. */
  class Database {
    var molecules: seq<MoleculeRow>
    var fragments: seq<FragmentRow>

    ghost predicate Valid()
      reads this
    {
      UniqueIds(molecules) && ForeignKeys(molecules, fragments)
    }

    /** Both CREATE TABLE statements on a fresh file. */
    constructor ()
      ensures Valid() && molecules == [] && fragments == []
    {
      molecules := [];
      fragments := [];
    }

    /** store_to_sqlite as written: run the inserts, then commit them, or leave both tables untouched on an exception. */
    method StoreToSqlite(rm: ReverseMap) returns (result: StoreResult)
      requires Valid() && WellFormed(rm)
      modifies this
      ensures Valid()
      ensures result == StoreAsWritten(old(molecules), rm)
      ensures result.Committed? ==>
                molecules == old(molecules) + result.rows.molecules && fragments == old(fragments) + result.rows.fragments
      ensures result.Failed? ==> molecules == old(molecules) && fragments == old(fragments)
    {
      result := InsertAsWritten(molecules, rm);
      if result.Committed? {
        StoreAsWrittenTables(molecules, fragments, rm);
        molecules, fragments := molecules + result.rows.molecules, fragments + result.rows.fragments;  // conn.commit()
      }
    }

    /**
     * The whole of reverse_fp_catalogue: invert the catalogue over the
     * supplier, then pass the dict to store_to_sqlite as written.
     */
    method ReverseAndStore(cat: seq<Entry>, sup: seq<Record>) returns (result: StoreResult)
      requires Valid()
      modifies this
      ensures Valid()
      ensures WellFormed(ReverseCatalogue(cat, sup)) && result == StoreAsWritten(old(molecules), ReverseCatalogue(cat, sup))
      ensures result.Committed? ==>
                molecules == old(molecules) + result.rows.molecules && fragments == old(fragments) + result.rows.fragments
      ensures result.Failed? ==> molecules == old(molecules) && fragments == old(fragments)
    {
      var rm := ReverseFpCatalogue(cat, sup);
      result := StoreToSqlite(rm);
    }

    /** The corrected store, committed the same way. */
    method StoreToSqliteOwned(rm: ReverseMap) returns (result: StoreResult)
      requires Valid() && WellFormed(rm)
      modifies this
      ensures Valid()
      ensures result == StoreOwned(old(molecules), rm)
      ensures result.Committed? ==>
                molecules == old(molecules) + result.rows.molecules && fragments == old(fragments) + result.rows.fragments
      ensures result.Failed? ==> molecules == old(molecules) && fragments == old(fragments)
    {
      result := InsertOwned(molecules, rm);
      if result.Committed? {
        StoreOwnedTables(molecules, fragments, rm);
        molecules, fragments := molecules + result.rows.molecules, fragments + result.rows.fragments;  // conn.commit()
      }
    }
  }

  /**
   * The insert loops of store_to_sqlite, on the rows one transaction adds to a
   * `molecules` table that already holds `existing`.
   */
  method InsertAsWritten(existing: seq<MoleculeRow>, rm: ReverseMap) returns (result: StoreResult)
    requires WellFormed(rm)
    ensures result == StoreAsWritten(existing, rm)
  {
    var mols, clash, lastId := InsertMolecules(existing, rm);
    if clash != [] {
      return Failed(DuplicateMolecule(clash[0]));
    }
    // the fragment loop reads `mol_info` and `mol_id` as the molecule loop left them
    if lastId == [] {
      return Failed(UnboundLoopVariable);
    }
    var molId := lastId[0];
    var frags := InsertFragments([], rm.entries[molId].fragments, molId);
    return Committed(Rows(mols, frags));
  }

  /**
   * The molecule loop: one row per key in insertion order, stopping at the
   * first id the table already holds. `lastId` is the loop variable `mol_id`
   * as it stands after the loop: unbound (empty) when the loop never ran.
   */
  method InsertMolecules(existing: seq<MoleculeRow>, rm: ReverseMap)
    returns (mols: seq<MoleculeRow>, clash: seq<MolId>, lastId: seq<MolId>)
    requires WellFormed(rm)
    ensures clash == FirstClash(Ids(existing), rm.keys)
    ensures clash == [] ==> mols == MoleculeRows(rm)
    ensures clash == [] ==> lastId == if rm.keys == [] then [] else [rm.keys[|rm.keys| - 1]]
  {
    mols, clash, lastId := [], [], [];
    var t := 0;
    while t < |rm.keys|
      invariant 0 <= t <= |rm.keys|
      invariant mols == MoleculeRows(rm)[..t]
      invariant FirstClash(Ids(existing), rm.keys[..t]) == []
      invariant lastId == if t == 0 then [] else [rm.keys[t - 1]]
    {
      var molId := rm.keys[t];
      FirstClashExtend(Ids(existing), rm.keys, t);
      ClashOnlyWithExisting(existing, rm, t);
      if molId in Ids(existing + mols) {
        FirstClashPrefix(Ids(existing), rm.keys, t + 1);
        clash := [molId];
        return;
      }
      MoleculeRowsExtend(rm, t);
      mols := mols + [MoleculeRow(molId, rm.entries[molId].smiles)];
      lastId := [molId];
      t := t + 1;
    }
    assert rm.keys[..t] == rm.keys && MoleculeRows(rm)[..t] == MoleculeRows(rm);
  }

  /** The corrected insert loops: each molecule's fragments right after its row, under its id. */
  method InsertOwned(existing: seq<MoleculeRow>, rm: ReverseMap) returns (result: StoreResult)
    requires WellFormed(rm)
    ensures result == StoreOwned(existing, rm)
  {
    var mols: seq<MoleculeRow> := [];
    var frags: seq<FragmentRow> := [];
    assert forall k :: k in rm.keys ==> k in rm.entries;
    var t := 0;
    while t < |rm.keys|
      invariant 0 <= t <= |rm.keys|
      invariant mols == MoleculeRows(rm)[..t]
      invariant forall k :: k in rm.keys[..t] ==> k in rm.entries
      invariant frags == AllOwned(rm, rm.keys[..t])
      invariant FirstClash(Ids(existing), rm.keys[..t]) == []
    {
      var molId := rm.keys[t];
      FirstClashExtend(Ids(existing), rm.keys, t);
      ClashOnlyWithExisting(existing, rm, t);
      if molId in Ids(existing + mols) {
        FirstClashPrefix(Ids(existing), rm.keys, t + 1);
        return Failed(DuplicateMolecule(molId));
      }
      MoleculeRowsExtend(rm, t);
      mols := mols + [MoleculeRow(molId, rm.entries[molId].smiles)];
      frags := InsertFragments(frags, rm.entries[molId].fragments, molId);
      AllOwnedExtend(rm, rm.keys, t);
      t := t + 1;
    }
    assert rm.keys[..t] == rm.keys && MoleculeRows(rm)[..t] == MoleculeRows(rm);
    return Committed(Rows(mols, frags));
  }

  /** The fragment insert loop: one row per fragment, in list order, each tagged with `molId`. */
  method InsertFragments(table: seq<FragmentRow>, fragList: seq<Smiles>, molId: MolId) returns (table': seq<FragmentRow>)
    ensures |table'| == |table| + |fragList|
    ensures table'[..|table|] == table
    ensures forall f :: 0 <= f < |fragList| ==> table'[|table| + f] == FragmentRow(fragList[f], molId)
    ensures table' == table + Owned(fragList, molId)
  {
    table' := table;
    var f := 0;
    while f < |fragList|
      invariant 0 <= f <= |fragList|
      invariant |table'| == |table| + f && table'[..|table|] == table
      invariant forall g :: 0 <= g < f ==> table'[|table| + g] == FragmentRow(fragList[g], molId)
    {
      table' := table' + [FragmentRow(fragList[f], molId)];
      f := f + 1;
    }
    OwnedRows(fragList, molId);
  }

  // ---------------------------------------------------------------------------
  // Loop helpers
  // ---------------------------------------------------------------------------

  lemma FirstClashExtend(stored: set<MolId>, keys: seq<MolId>, t: nat)
    requires t < |keys|
    ensures FirstClash(stored, keys[..t + 1]) ==
            if FirstClash(stored, keys[..t]) != [] then FirstClash(stored, keys[..t])
            else if keys[t] in stored then [keys[t]] else []
  {
    assert keys[..t + 1][..t] == keys[..t];
  }

  /** Once a prefix of the keys clashes, the whole key list has that first clash. */
  lemma FirstClashPrefix(stored: set<MolId>, keys: seq<MolId>, n: nat)
    requires n <= |keys| && FirstClash(stored, keys[..n]) != []
    ensures FirstClash(stored, keys) == FirstClash(stored, keys[..n])
    decreases |keys| - n
  {
    if n < |keys| {
      FirstClashExtend(stored, keys, n);
      FirstClashPrefix(stored, keys, n + 1);
    } else {
      assert keys[..n] == keys;
    }
  }

  /** The ids inserted so far are exactly the first `t` keys, so key `t` is not among them. */
  lemma NewIdsAreKeys(rm: ReverseMap, t: nat)
    requires WellFormed(rm) && t < |rm.keys|
    ensures rm.keys[t] !in Ids(MoleculeRows(rm)[..t])
  {
    var rows := MoleculeRows(rm)[..t];
    forall r | r in rows ensures r.id != rm.keys[t] {
      var a :| 0 <= a < t && rows[a] == r;
      assert r.id == rm.keys[a];
    }
  }

  /** Within one call the keys are distinct, so an insert can only clash with a row stored before the call. */
  lemma ClashOnlyWithExisting(existing: seq<MoleculeRow>, rm: ReverseMap, t: nat)
    requires WellFormed(rm) && t < |rm.keys|
    ensures rm.keys[t] in Ids(existing + MoleculeRows(rm)[..t]) <==> rm.keys[t] in Ids(existing)
  {
    NewIdsAreKeys(rm, t);
    IdsAppend(existing, MoleculeRows(rm)[..t]);
  }

  lemma MoleculeRowsExtend(rm: ReverseMap, t: nat)
    requires WellFormed(rm) && t < |rm.keys|
    ensures MoleculeRows(rm)[..t + 1] == MoleculeRows(rm)[..t] + [MoleculeRow(rm.keys[t], rm.entries[rm.keys[t]].smiles)]
  {
  }

  lemma AllOwnedExtend(rm: ReverseMap, keys: seq<MolId>, t: nat)
    requires forall k :: k in keys ==> k in rm.entries
    requires t < |keys|
    ensures AllOwned(rm, keys[..t + 1]) == AllOwned(rm, keys[..t]) + Owned(rm.entries[keys[t]].fragments, keys[t])
  {
    assert keys[..t + 1][..t] == keys[..t];
  }

  lemma IdsAppend(a: seq<MoleculeRow>, b: seq<MoleculeRow>)
    ensures Ids(a + b) == Ids(a) + Ids(b)
  {
    forall k | k in Ids(a + b) ensures k in Ids(a) + Ids(b) {
      var r :| r in a + b && r.id == k;
    }
  }

  /** Appending fresh molecule rows keeps the key constraints, whichever fragment rows are added. */
  lemma AppendKeepsValid(mols: seq<MoleculeRow>, frags: seq<FragmentRow>, rm: ReverseMap, newFrags: seq<FragmentRow>)
    requires WellFormed(rm)
    requires UniqueIds(mols) && ForeignKeys(mols, frags)
    requires FirstClash(Ids(mols), rm.keys) == []
    requires forall t :: 0 <= t < |newFrags| ==> newFrags[t].molId in rm.keys
    ensures UniqueIds(mols + MoleculeRows(rm)) && ForeignKeys(mols + MoleculeRows(rm), frags + newFrags)
  {
    var rows := MoleculeRows(rm);
    NoClash(Ids(mols), rm.keys);
    IdsAppend(mols, rows);
    assert forall t :: 0 <= t < |rm.keys| ==> rm.keys[t] in Ids(rows) by {
      forall t | 0 <= t < |rm.keys| ensures rm.keys[t] in Ids(rows) {
        assert rows[t].id == rm.keys[t];
      }
    }
    var all := mols + rows;
    forall a, b | 0 <= a < b < |all| ensures RowIds(all)[a] != RowIds(all)[b] {
      if b >= |mols| && a < |mols| {
        assert all[a].id in Ids(mols);
        assert all[b].id == rm.keys[b - |mols|];
      } else if a < |mols| {
        assert RowIds(mols)[a] != RowIds(mols)[b];
      }
    }
  }

  lemma {:induction false} NoClash(stored: set<MolId>, keys: seq<MolId>)
    ensures FirstClash(stored, keys) == [] <==> forall t :: 0 <= t < |keys| ==> keys[t] !in stored
  {
    if keys != [] {
      var p := keys[..|keys| - 1];
      NoClash(stored, p);
      if FirstClash(stored, keys) != [] && FirstClash(stored, p) != [] {
        var t :| 0 <= t < |p| && p[t] in stored;
        assert keys[t] in stored;
      }
    }
  }

  lemma {:induction false} OwnedRows(frags: seq<Smiles>, id: MolId)
    ensures |Owned(frags, id)| == |frags|
    ensures forall t :: 0 <= t < |frags| ==> Owned(frags, id)[t] == FragmentRow(frags[t], id)
  {
    if frags != [] {
      OwnedRows(frags[..|frags| - 1], id);
    }
  }

  lemma StoreAsWrittenTables(mols: seq<MoleculeRow>, frags: seq<FragmentRow>, rm: ReverseMap)
    requires WellFormed(rm) && UniqueIds(mols) && ForeignKeys(mols, frags)
    requires StoreAsWritten(mols, rm).Committed?
    ensures UniqueIds(mols + StoreAsWritten(mols, rm).rows.molecules)
    ensures ForeignKeys(mols + StoreAsWritten(mols, rm).rows.molecules, frags + StoreAsWritten(mols, rm).rows.fragments)
  {
    var last := rm.keys[|rm.keys| - 1];
    OwnedRows(rm.entries[last].fragments, last);
    AppendKeepsValid(mols, frags, rm, Owned(rm.entries[last].fragments, last));
  }

  lemma StoreOwnedTables(mols: seq<MoleculeRow>, frags: seq<FragmentRow>, rm: ReverseMap)
    requires WellFormed(rm) && UniqueIds(mols) && ForeignKeys(mols, frags)
    requires StoreOwned(mols, rm).Committed?
    ensures UniqueIds(mols + StoreOwned(mols, rm).rows.molecules)
    ensures ForeignKeys(mols + StoreOwned(mols, rm).rows.molecules, frags + StoreOwned(mols, rm).rows.fragments)
  {
    AllOwnedKeys(rm, rm.keys);
    AppendKeepsValid(mols, frags, rm, AllOwned(rm, rm.keys));
  }

  lemma {:induction false} AllOwnedKeys(rm: ReverseMap, keys: seq<MolId>)
    requires forall k :: k in keys ==> k in rm.entries
    ensures forall t :: 0 <= t < |AllOwned(rm, keys)| ==> AllOwned(rm, keys)[t].molId in keys
  {
    if keys != [] {
      var p, k := keys[..|keys| - 1], keys[|keys| - 1];
      AllOwnedKeys(rm, p);
      OwnedRows(rm.entries[k].fragments, k);
      var a: seq<FragmentRow>, b: seq<FragmentRow> := AllOwned(rm, p), Owned(rm.entries[k].fragments, k);
      forall t | 0 <= t < |a + b| ensures (a + b)[t].molId in keys {
        if t < |a| {
          var j :| 0 <= j < |p| && p[j] == a[t].molId;
          assert keys[j] == p[j];
        }
      }
    }
  }

  // ---------------------------------------------------------------------------
  // Properties of the store as written
  // ---------------------------------------------------------------------------

  /** The call commits exactly when the dict is non-empty and none of its ids is already stored. */
  lemma StoreAsWrittenOutcome(existing: seq<MoleculeRow>, rm: ReverseMap)
    requires WellFormed(rm)
    ensures StoreAsWritten(existing, rm).Committed? <==>
              rm.keys != [] && forall t :: 0 <= t < |rm.keys| ==> rm.keys[t] !in Ids(existing)
    ensures rm.keys == [] ==> StoreAsWritten(existing, rm) == Failed(UnboundLoopVariable)
    ensures StoreAsWritten(existing, rm) == Failed(UnboundLoopVariable) ==> rm.keys == []
    ensures forall k :: StoreAsWritten(existing, rm) == Failed(DuplicateMolecule(k)) ==> k in rm.keys && k in Ids(existing)
  {
    NoClash(Ids(existing), rm.keys);
    FirstClashSound(Ids(existing), rm.keys);
  }

  /** One `molecules` row per key, in insertion order, and the PRIMARY KEY still holds afterwards. */
  lemma StoreAsWrittenMolecules(existing: seq<MoleculeRow>, rm: ReverseMap)
    requires WellFormed(rm) && UniqueIds(existing)
    requires StoreAsWritten(existing, rm).Committed?
    ensures var rows := StoreAsWritten(existing, rm).rows.molecules;
            && |rows| == |rm.keys|
            && (forall t :: 0 <= t < |rows| ==> rows[t].id == rm.keys[t] && rows[t].smiles == rm.entries[rm.keys[t]].smiles)
            && UniqueIds(existing + rows)
  {
    AppendKeepsValid(existing, [], rm, []);
  }

  /** Only the last key's fragments are written, all under the last key, in list order. */
  lemma StoreAsWrittenFragments(existing: seq<MoleculeRow>, rm: ReverseMap)
    requires WellFormed(rm)
    requires StoreAsWritten(existing, rm).Committed?
    ensures var last, rows := rm.keys[|rm.keys| - 1], StoreAsWritten(existing, rm).rows.fragments;
            && (forall t :: 0 <= t < |rows| ==> rows[t].molId == last)
            && FragmentsOf(rows, last) == rm.entries[last].fragments
            && forall k :: k != last ==> FragmentsOf(rows, k) == []
  {
    var last := rm.keys[|rm.keys| - 1];
    OwnedRows(rm.entries[last].fragments, last);
    forall k ensures FragmentsOf(Owned(rm.entries[last].fragments, last), k) == if k == last then rm.entries[last].fragments else [] {
      FragmentsOfOwned(rm.entries[last].fragments, last, k);
    }
  }

  /** A catalogue where molecule B is seen first (fragment F1) and A second (fragment F2). */
  function ExampleCatalogue(): seq<Entry>
  {
    [Entry("F1", {"B"}), Entry("F2", {"A", "B"})]
  }

  function ExampleSupplier(): seq<Record>
  {
    [Record("A", "a"), Record("B", "b")]
  }

  lemma ExampleScan()
    ensures Scan(ExampleCatalogue(), ExampleSupplier()) ==
            [Sighting("B", "b", "F1"), Sighting("A", "a", "F2"), Sighting("B", "b", "F2")]
  {
    var cat, sup := ExampleCatalogue(), ExampleSupplier();
    assert "A" != "B" by { assert "A"[0] != "B"[0]; }
    assert Row(cat[0], sup[..1]) == [];
    assert Row(cat[1], sup[..1]) == [Sighting("A", "a", "F2")];
    assert cat[..1] == [cat[0]];
    assert Scan(cat[..1], sup) == Row(cat[0], sup);
  }

  lemma ExampleReverse()
    ensures var rm := ReverseCatalogue(ExampleCatalogue(), ExampleSupplier());
            && rm.keys == ["B", "A"]
            && rm.entries["B"] == MolInfo("b", ["F1", "F2"])
            && rm.entries["A"] == MolInfo("a", ["F2"])
  {
    ExampleScan();
    var b1, a2, b2 := Sighting("B", "b", "F1"), Sighting("A", "a", "F2"), Sighting("B", "b", "F2");
    assert "A" != "B" by { assert "A"[0] != "B"[0]; }
    var m1 := Build([b1]);
    assert [b1][..0] == [];
    assert Build([]) == ReverseMap([], map[]);
    assert m1 == Step(Build([]), b1);
    assert m1.keys == ["B"] && m1.entries.Keys == {"B"} && m1.entries["B"] == MolInfo("b", ["F1"]);
    var m2 := Build([b1, a2]);
    assert [b1, a2][..1] == [b1];
    assert m2 == Step(m1, a2);
    assert m2.keys == ["B", "A"] && m2.entries["B"] == MolInfo("b", ["F1"]) && m2.entries["A"] == MolInfo("a", ["F2"]);
    assert [b1, a2, b2][..2] == [b1, a2];
    assert Build([b1, a2, b2]) == Step(m2, b2);
  }

  /**
   * The defect, on the example: B is seen first and scanned last, A is seen
   * second, so the dict order is [B, A]; only A's fragment is written and B's
   * two fragments are lost.
   */
  lemma StoreAsWrittenDropsFragments()
    ensures var cat, sup := ExampleCatalogue(), ExampleSupplier();
            var rm := ReverseCatalogue(cat, sup);
            && WellFormed(rm)
            && Scan(cat, sup)[|Scan(cat, sup)| - 1].id == "B"
            && rm.entries["B"].fragments == ["F1", "F2"]
            && StoreAsWritten([], rm) ==
               Committed(Rows([MoleculeRow("B", "b"), MoleculeRow("A", "a")], [FragmentRow("F2", "A")]))
  {
    ExampleScan();
    ExampleReverse();
    var rm := ReverseCatalogue(ExampleCatalogue(), ExampleSupplier());
    ReverseIndexWellFormed(ExampleCatalogue(), ExampleSupplier());
    assert Ids([]) == {};
    assert ["B", "A"][..1] == ["B"] && ["B"][..0] == [];
    assert FirstClash({}, rm.keys) == [];
    assert Owned(["F2"], "A") == Owned([], "A") + [FragmentRow("F2", "A")];
  }

  /**
   * Storing the same dict again into the same file fails on its first key:
   * CREATE TABLE IF NOT EXISTS keeps the earlier rows, and the PRIMARY KEY
   * rejects the repeated id.
   */
  lemma StoreAsWrittenTwiceFails(existing: seq<MoleculeRow>, rm: ReverseMap)
    requires WellFormed(rm)
    requires StoreAsWritten(existing, rm).Committed?
    ensures StoreAsWritten(existing + StoreAsWritten(existing, rm).rows.molecules, rm) == Failed(DuplicateMolecule(rm.keys[0]))
  {
    StoreAsWrittenOutcome(existing, rm);
    FirstKeyStored(existing, rm);
  }

  /** The corrected store fails the same way on a second run with a non-empty dict. */
  lemma StoreOwnedTwiceFails(existing: seq<MoleculeRow>, rm: ReverseMap)
    requires WellFormed(rm) && rm.keys != []
    requires StoreOwned(existing, rm).Committed?
    ensures StoreOwned(existing + StoreOwned(existing, rm).rows.molecules, rm) == Failed(DuplicateMolecule(rm.keys[0]))
  {
    FirstKeyStored(existing, rm);
  }

  /** After the rows of a dict are stored, its first key is the first clash. */
  lemma FirstKeyStored(existing: seq<MoleculeRow>, rm: ReverseMap)
    requires WellFormed(rm) && rm.keys != []
    ensures FirstClash(Ids(existing + MoleculeRows(rm)), rm.keys) == [rm.keys[0]]
  {
    var stored := Ids(existing + MoleculeRows(rm));
    IdsAppend(existing, MoleculeRows(rm));
    assert MoleculeRows(rm)[0].id == rm.keys[0];
    assert rm.keys[0] in stored;
    FirstClashExtend(stored, rm.keys, 0);
    assert rm.keys[..0] == [];
    FirstClashPrefix(stored, rm.keys, 1);
  }

  // ---------------------------------------------------------------------------
  // Properties of the corrected store
  // ---------------------------------------------------------------------------

  /** The corrected store commits exactly when no id is already stored; an empty dict commits nothing. */
  lemma StoreOwnedOutcome(existing: seq<MoleculeRow>, rm: ReverseMap)
    requires WellFormed(rm)
    ensures StoreOwned(existing, rm).Committed? <==> forall t :: 0 <= t < |rm.keys| ==> rm.keys[t] !in Ids(existing)
    ensures rm.keys == [] ==> StoreOwned(existing, rm) == Committed(Rows([], []))
  {
    NoClash(Ids(existing), rm.keys);
  }

  /**
   * Every molecule's fragments are written under its own id, in list order,
   * and every fragment row names a molecule of this call (the FOREIGN KEY).
   */
  lemma StoreOwnedFragments(existing: seq<MoleculeRow>, rm: ReverseMap, k: MolId)
    requires WellFormed(rm)
    requires StoreOwned(existing, rm).Committed?
    ensures var rows := StoreOwned(existing, rm).rows.fragments;
            && (k in rm.entries ==> FragmentsOf(rows, k) == rm.entries[k].fragments)
            && (k !in rm.entries ==> FragmentsOf(rows, k) == [])
            && forall t :: 0 <= t < |rows| ==> rows[t].molId in rm.keys
  {
    assert forall k' :: k' in rm.keys ==> k' in rm.entries;
    AllOwnedFragments(rm, rm.keys, k);
    AllOwnedKeys(rm, rm.keys);
  }

  /** The corrected store keeps both key constraints of the tables. */
  lemma StoreOwnedKeepsKeys(existing: seq<MoleculeRow>, frags: seq<FragmentRow>, rm: ReverseMap)
    requires WellFormed(rm) && UniqueIds(existing) && ForeignKeys(existing, frags)
    requires StoreOwned(existing, rm).Committed?
    ensures var rows := StoreOwned(existing, rm).rows;
            UniqueIds(existing + rows.molecules) && ForeignKeys(existing + rows.molecules, frags + rows.fragments)
  {
    StoreOwnedTables(existing, frags, rm);
  }

  // ---------------------------------------------------------------------------
  // Helpers for the properties
  // ---------------------------------------------------------------------------

  lemma {:induction false} FirstClashSound(stored: set<MolId>, keys: seq<MolId>)
    ensures FirstClash(stored, keys) != [] ==> FirstClash(stored, keys)[0] in keys && FirstClash(stored, keys)[0] in stored
  {
    if keys != [] {
      var p := keys[..|keys| - 1];
      FirstClashSound(stored, p);
      if FirstClash(stored, p) != [] {
        var c := FirstClash(stored, p)[0];
        var j :| 0 <= j < |p| && p[j] == c;
        assert keys[j] == c;
      }
    }
  }

  lemma {:induction false} FragmentsOfAppend(a: seq<FragmentRow>, b: seq<FragmentRow>, k: MolId)
    ensures FragmentsOf(a + b, k) == FragmentsOf(a, k) + FragmentsOf(b, k)
  {
    if b != [] {
      FragmentsOfAppend(a, b[..|b| - 1], k);
      assert (a + b)[..|a + b| - 1] == a + b[..|b| - 1];
    } else {
      assert a + b == a;
    }
  }

  lemma {:induction false} FragmentsOfOwned(frags: seq<Smiles>, id: MolId, k: MolId)
    ensures FragmentsOf(Owned(frags, id), k) == if k == id then frags else []
  {
    if frags != [] {
      var p := frags[..|frags| - 1];
      FragmentsOfOwned(p, id, k);
      var r := FragmentRow(frags[|frags| - 1], id);
      FragmentsOfAppend(Owned(p, id), [r], k);
      assert [r][..0] == [];
      assert FragmentsOf([r], k) == FragmentsOf([], k) + (if id == k then [r.smiles] else []);
      assert p + [frags[|frags| - 1]] == frags;
    }
  }

  lemma DistinctInit(keys: seq<MolId>)
    requires keys != [] && Distinct(keys)
    ensures Distinct(keys[..|keys| - 1]) && keys[|keys| - 1] !in keys[..|keys| - 1]
  {
  }

  lemma {:induction false} AllOwnedFragments(rm: ReverseMap, keys: seq<MolId>, k: MolId)
    requires forall k' :: k' in keys ==> k' in rm.entries
    requires Distinct(keys)
    ensures FragmentsOf(AllOwned(rm, keys), k) == if k in keys then rm.entries[k].fragments else []
  {
    if keys != [] {
      var p, last := keys[..|keys| - 1], keys[|keys| - 1];
      assert keys == p + [last];
      DistinctInit(keys);
      AllOwnedFragments(rm, p, k);
      FragmentsOfAppend(AllOwned(rm, p), Owned(rm.entries[last].fragments, last), k);
      FragmentsOfOwned(rm.entries[last].fragments, last, k);
    }
  }
}
