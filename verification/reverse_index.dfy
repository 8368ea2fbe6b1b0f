/**
 * Reverse indexing of the fragment catalogue (FpCatalogue.reverse_fp_catalogue).
 *
 * The catalogue relates each fragment SMILES to the set of ids of the
 * molecules that contain it. The reverse map relates each molecule id to the
 * molecule's SMILES and the list of fragment SMILES found for it. It is built
 * by a nested scan: catalogue entries outside, supplier records inside, and
 * the whole supplier is scanned again for every entry.
 *
 * The RDKit objects are abstract here: a catalogue entry is its fragment
 * SMILES with its id set, and a supplier record is the record's `_Name`
 * property with the SMILES that `Chem.MolToSmiles` gives for it.
 */
module ReverseIndex {

  type MolId = string
  type Smiles = string

  /** One catalogue item: a fragment and the ids of the molecules holding it. */
  datatype Entry = Entry(frag: Smiles, molIds: set<MolId>)

  /** One supplier record: its `_Name` and its canonical SMILES. */
  datatype Record = Record(id: MolId, smiles: Smiles)

  /** One hit of the nested scan: a record whose id lies in an entry's id set. */
  datatype Sighting = Sighting(id: MolId, smiles: Smiles, frag: Smiles)

  /** The value stored under a molecule id: `{"smiles": ..., "fragments": [...]}`. */
  datatype MolInfo = MolInfo(smiles: Smiles, fragments: seq<Smiles>)

  /** A Python dict keyed by molecule id: its entries and the insertion order of its keys. */
  datatype ReverseMap = ReverseMap(keys: seq<MolId>, entries: map<MolId, MolInfo>)

  ghost predicate Distinct(ids: seq<MolId>)
  {
    forall a, b :: 0 <= a < b < |ids| ==> ids[a] != ids[b]
  }

  /** What every dict satisfies: each key once, in the order list exactly when in the map. */
  ghost predicate WellFormed(rm: ReverseMap)
  {
    Distinct(rm.keys) && forall k :: k in rm.entries <==> k in rm.keys
  }

  // ---------------------------------------------------------------------------
  // The scan and the dict it builds
  // ---------------------------------------------------------------------------

  /** The hits of one pass of the inner loop: records of `sup` whose id is in `e.molIds`, in supplier order. */
  function Row(e: Entry, sup: seq<Record>): seq<Sighting>
  {
    if sup == [] then []
    else
      var r := sup[|sup| - 1];
      Row(e, sup[..|sup| - 1]) + (if r.id in e.molIds then [Sighting(r.id, r.smiles, e.frag)] else [])
  }

  /** All hits of the nested loop, in the order the loop meets them. */
  function Scan(cat: seq<Entry>, sup: seq<Record>): seq<Sighting>
  {
    if cat == [] then [] else Scan(cat[..|cat| - 1], sup) + Row(cat[|cat| - 1], sup)
  }

  /** One hit: create the molecule's entry on first sight, then append the fragment. */
  function Step(rm: ReverseMap, s: Sighting): ReverseMap
  {
    var keys := if s.id in rm.entries then rm.keys else rm.keys + [s.id];
    var info := if s.id in rm.entries then rm.entries[s.id] else MolInfo(s.smiles, []);
    ReverseMap(keys, rm.entries[s.id := info.(fragments := info.fragments + [s.frag])])
  }

  /** The dict after the given hits, starting from the empty dict. */
  function Build(ss: seq<Sighting>): ReverseMap
  {
    if ss == [] then ReverseMap([], map[]) else Step(Build(ss[..|ss| - 1]), ss[|ss| - 1])
  }

  /** The reverse map of a catalogue over a supplier. */
  function ReverseCatalogue(cat: seq<Entry>, sup: seq<Record>): ReverseMap
  {
    Build(Scan(cat, sup))
  }

  /**
   * The nested loops of reverse_fp_catalogue, building the dict in place:
   * `keys` and `entries` together are the dict `reverse_frag_cat`.
   */
  method ReverseFpCatalogue(cat: seq<Entry>, sup: seq<Record>) returns (rm: ReverseMap)
    ensures rm == ReverseCatalogue(cat, sup)
    ensures WellFormed(rm)
  {
    var keys: seq<MolId> := [];
    var entries: map<MolId, MolInfo> := map[];
    var i := 0;
    while i < |cat|
      invariant 0 <= i <= |cat|
      invariant ReverseMap(keys, entries) == Build(Scan(cat[..i], sup))
    {
      var e := cat[i];
      ghost var done := Scan(cat[..i], sup);
      assert done + Row(e, sup[..0]) == done;
      var j := 0;
      while j < |sup|
        invariant 0 <= j <= |sup|
        invariant ReverseMap(keys, entries) == Build(done + Row(e, sup[..j]))
      {
        var r := sup[j];
        RowExtend(e, sup, j);
        if r.id in e.molIds {
          ghost var before := ReverseMap(keys, entries);
          BuildExtend(done + Row(e, sup[..j]), Sighting(r.id, r.smiles, e.frag));
          if r.id !in entries {
            keys := keys + [r.id];
            entries := entries[r.id := MolInfo(r.smiles, [])];
          }
          entries := entries[r.id := entries[r.id].(fragments := entries[r.id].fragments + [e.frag])];
          assert ReverseMap(keys, entries) == Step(before, Sighting(r.id, r.smiles, e.frag));
          assert done + Row(e, sup[..j + 1]) == done + Row(e, sup[..j]) + [Sighting(r.id, r.smiles, e.frag)];
        } else {
          assert done + Row(e, sup[..j + 1]) == done + Row(e, sup[..j]);
        }
        j := j + 1;
      }
      assert sup[..|sup|] == sup;
      ScanExtend(cat, sup, i);
      i := i + 1;
    }
    assert cat[..|cat|] == cat;
    rm := ReverseMap(keys, entries);
    BuildWellFormed(Scan(cat, sup));
  }

  lemma RowExtend(e: Entry, sup: seq<Record>, j: nat)
    requires j < |sup|
    ensures Row(e, sup[..j + 1]) ==
            Row(e, sup[..j]) + (if sup[j].id in e.molIds then [Sighting(sup[j].id, sup[j].smiles, e.frag)] else [])
  {
    assert sup[..j + 1][..j] == sup[..j];
  }

  lemma ScanExtend(cat: seq<Entry>, sup: seq<Record>, i: nat)
    requires i < |cat|
    ensures Scan(cat[..i + 1], sup) == Scan(cat[..i], sup) + Row(cat[i], sup)
  {
    assert cat[..i + 1][..i] == cat[..i];
  }

  lemma BuildExtend(ss: seq<Sighting>, x: Sighting)
    ensures Build(ss + [x]) == Step(Build(ss), x)
  {
    assert (ss + [x])[..|ss|] == ss;
  }

  // ---------------------------------------------------------------------------
  // Reference definitions stated directly on the catalogue and the supplier
  // ---------------------------------------------------------------------------

  /** Number of supplier records whose id is `k`. */
  function Count(sup: seq<Record>, k: MolId): nat
  {
    if sup == [] then 0
    else Count(sup[..|sup| - 1], k) + (if sup[|sup| - 1].id == k then 1 else 0)
  }

  /** Number of catalogue entries whose id set holds `k`. */
  function Occurrences(cat: seq<Entry>, k: MolId): nat
  {
    if cat == [] then 0
    else Occurrences(cat[..|cat| - 1], k) + (if k in cat[|cat| - 1].molIds then 1 else 0)
  }

  function Repeat(x: Smiles, n: nat): seq<Smiles>
  {
    seq(n, _ => x)
  }

  /**
   * The fragment list molecule `k` should get: catalogue order, and each
   * entry holding `k` contributes its fragment once per supplier record with id `k`.
   */
  function ExpectedFragments(cat: seq<Entry>, sup: seq<Record>, k: MolId): seq<Smiles>
  {
    if cat == [] then []
    else
      var e := cat[|cat| - 1];
      ExpectedFragments(cat[..|cat| - 1], sup, k) + (if k in e.molIds then Repeat(e.frag, Count(sup, k)) else [])
  }

  /** Before any hit on `later`, `earlier` was already hit. */
  ghost predicate SeenBefore(ss: seq<Sighting>, earlier: MolId, later: MolId)
  {
    forall t :: 0 <= t < |ss| && ss[t].id == later ==> exists u :: 0 <= u < t && ss[u].id == earlier
  }

  /** Dict keys are in order of first sighting. */
  ghost predicate FirstSightingOrder(keys: seq<MolId>, ss: seq<Sighting>)
  {
    forall a, b :: 0 <= a < b < |keys| ==> SeenBefore(ss, keys[a], keys[b])
  }

  // ---------------------------------------------------------------------------
  // Properties of the reverse map
  // ---------------------------------------------------------------------------

  /** A molecule id is a key exactly when some supplier record has it and some catalogue entry lists it. */
  lemma ReverseIndexKeys(cat: seq<Entry>, sup: seq<Record>, k: MolId)
    ensures k in ReverseCatalogue(cat, sup).entries <==>
            (exists j :: 0 <= j < |sup| && sup[j].id == k) && (exists i :: 0 <= i < |cat| && k in cat[i].molIds)
  {
    BuildAt(Scan(cat, sup), k);
    MatchingScan(cat, sup, k);
    SightingsOfNonEmpty(cat, sup, k);
    WithIdNonEmpty(sup, k);
  }

  /** The key order list and the entries agree, and no key repeats. */
  lemma ReverseIndexWellFormed(cat: seq<Entry>, sup: seq<Record>)
    ensures WellFormed(ReverseCatalogue(cat, sup))
  {
    BuildWellFormed(Scan(cat, sup));
  }

  /** The stored SMILES is that of the first supplier record with the id; later matches never overwrite it. */
  lemma ReverseIndexSmiles(cat: seq<Entry>, sup: seq<Record>, k: MolId, j: nat)
    requires k in ReverseCatalogue(cat, sup).entries
    requires j < |sup| && sup[j].id == k
    requires forall j' :: 0 <= j' < j ==> sup[j'].id != k
    ensures ReverseCatalogue(cat, sup).entries[k].smiles == sup[j].smiles
  {
    var ss := Scan(cat, sup);
    BuildAt(ss, k);
    MatchingScan(cat, sup, k);
    SightingsOfFirst(cat, sup, k);
    WithIdFirst(sup, k, j);
  }

  /** A molecule's fragment list is the reference list: catalogue order, duplicated per duplicate record. */
  lemma ReverseIndexFragments(cat: seq<Entry>, sup: seq<Record>, k: MolId)
    requires k in ReverseCatalogue(cat, sup).entries
    ensures ReverseCatalogue(cat, sup).entries[k].fragments == ExpectedFragments(cat, sup, k)
  {
    BuildAt(Scan(cat, sup), k);
    MatchingScan(cat, sup, k);
    SightingsOfFrags(cat, sup, k);
  }

  /** Every fragment listed for a molecule comes from a catalogue entry whose id set holds that molecule. */
  lemma ReverseIndexFragmentSound(cat: seq<Entry>, sup: seq<Record>, k: MolId, f: Smiles)
    requires k in ReverseCatalogue(cat, sup).entries
    requires f in ReverseCatalogue(cat, sup).entries[k].fragments
    ensures exists i :: 0 <= i < |cat| && cat[i].frag == f && k in cat[i].molIds
  {
    ReverseIndexFragments(cat, sup, k);
    ExpectedFragmentsSound(cat, sup, k, f);
  }

  /** The fragment count is (records with the id) times (entries listing the id). */
  lemma ReverseIndexFragmentCount(cat: seq<Entry>, sup: seq<Record>, k: MolId)
    requires k in ReverseCatalogue(cat, sup).entries
    ensures |ReverseCatalogue(cat, sup).entries[k].fragments| == Count(sup, k) * Occurrences(cat, k)
  {
    ReverseIndexFragments(cat, sup, k);
    ExpectedFragmentsLength(cat, sup, k);
  }

  /** Keys are in order of first sighting during the nested scan. */
  lemma ReverseIndexOrder(cat: seq<Entry>, sup: seq<Record>)
    ensures FirstSightingOrder(ReverseCatalogue(cat, sup).keys, Scan(cat, sup))
  {
    BuildOrder(Scan(cat, sup));
  }

  // ---------------------------------------------------------------------------
  // Build: the dict after any sequence of hits
  // ---------------------------------------------------------------------------

  /** The hits on molecule `k`, in order. */
  function Matching(ss: seq<Sighting>, k: MolId): seq<Sighting>
  {
    if ss == [] then []
    else Matching(ss[..|ss| - 1], k) + (if ss[|ss| - 1].id == k then [ss[|ss| - 1]] else [])
  }

  function Frags(ss: seq<Sighting>): seq<Smiles>
  {
    if ss == [] then [] else Frags(ss[..|ss| - 1]) + [ss[|ss| - 1].frag]
  }

  lemma {:induction false} BuildWellFormed(ss: seq<Sighting>)
    ensures WellFormed(Build(ss))
  {
    if ss != [] {
      BuildWellFormed(ss[..|ss| - 1]);
    }
  }

  lemma {:induction false} MatchingNonEmpty(ss: seq<Sighting>, k: MolId)
    ensures Matching(ss, k) != [] <==> exists t :: 0 <= t < |ss| && ss[t].id == k
  {
    if ss != [] {
      var p := ss[..|ss| - 1];
      MatchingNonEmpty(p, k);
      if exists t :: 0 <= t < |p| && p[t].id == k {
        var t :| 0 <= t < |p| && p[t].id == k;
        assert ss[t].id == k;
      }
    }
  }

  /** The entry of `k` in the dict: present exactly when `k` was hit; SMILES of the first hit; fragments of all hits. */
  lemma {:induction false} BuildAt(ss: seq<Sighting>, k: MolId)
    ensures k in Build(ss).entries <==> Matching(ss, k) != []
    ensures k in Build(ss).entries ==>
              Build(ss).entries[k] == MolInfo(Matching(ss, k)[0].smiles, Frags(Matching(ss, k)))
  {
    if ss != [] {
      var p, x := ss[..|ss| - 1], ss[|ss| - 1];
      BuildAt(p, k);
      var m := Matching(p, k);
      if x.id == k {
        assert Matching(ss, k) == m + [x];
        assert (m + [x])[..|m|] == m;
        assert Frags(m + [x]) == Frags(m) + [x.frag];
        if m == [] {
          assert m + [x] == [x];
        } else {
          assert (m + [x])[0] == m[0];
        }
      } else {
        assert Matching(ss, k) == m + [] == m;
      }
    }
  }

  /** Every key of the dict was hit somewhere in the sequence. */
  lemma KeyWasHit(ss: seq<Sighting>, k: MolId)
    requires k in Build(ss).entries
    ensures exists u :: 0 <= u < |ss| && ss[u].id == k
  {
    BuildAt(ss, k);
    MatchingNonEmpty(ss, k);
  }

  lemma KeyNotHit(ss: seq<Sighting>, k: MolId)
    requires k !in Build(ss).entries
    ensures forall u :: 0 <= u < |ss| ==> ss[u].id != k
  {
    BuildAt(ss, k);
    MatchingNonEmpty(ss, k);
  }

  lemma {:induction false} BuildOrder(ss: seq<Sighting>)
    ensures FirstSightingOrder(Build(ss).keys, ss)
  {
    if ss != [] {
      var p, x := ss[..|ss| - 1], ss[|ss| - 1];
      BuildOrder(p);
      BuildWellFormed(p);
      assert ss == p + [x];
      forall a, b | 0 <= a < b < |Build(ss).keys|
        ensures SeenBefore(ss, Build(ss).keys[a], Build(ss).keys[b])
      {
        OrderStep(p, x, a, b);
      }
    }
  }

  /** One more hit keeps the first-sighting order of the keys. */
  lemma OrderStep(p: seq<Sighting>, x: Sighting, a: nat, b: nat)
    requires FirstSightingOrder(Build(p).keys, p) && WellFormed(Build(p))
    requires a < b < |Build(p + [x]).keys|
    ensures SeenBefore(p + [x], Build(p + [x]).keys[a], Build(p + [x]).keys[b])
  {
    BuildExtend(p, x);
    var ss := p + [x];
    var keys, keys' := Build(p).keys, Build(ss).keys;
    var ka, kb := keys'[a], keys'[b];
    assert ka == keys[a] && ka in Build(p).entries;
    KeyWasHit(p, ka);
    var u :| 0 <= u < |p| && p[u].id == ka;
    if b < |keys| {
      assert SeenBefore(p, keys[a], keys[b]);
      forall t | 0 <= t < |ss| && ss[t].id == kb
        ensures exists u' :: 0 <= u' < t && ss[u'].id == ka
      {
        if t < |p| {
          assert p[t].id == keys[b];
          var u' :| 0 <= u' < t && p[u'].id == ka;
          assert ss[u'].id == ka;
        } else {
          assert ss[u].id == ka;
        }
      }
    } else {
      assert kb == x.id && kb !in Build(p).entries;
      KeyNotHit(p, kb);
      forall t | 0 <= t < |ss| && ss[t].id == kb
        ensures exists u' :: 0 <= u' < t && ss[u'].id == ka
      {
        assert ss[u].id == ka;
      }
    }
  }

  // ---------------------------------------------------------------------------
  // The hits on one molecule
  // ---------------------------------------------------------------------------

  /** The supplier records with id `k`, in order. */
  function WithId(sup: seq<Record>, k: MolId): seq<Record>
  {
    if sup == [] then []
    else WithId(sup[..|sup| - 1], k) + (if sup[|sup| - 1].id == k then [sup[|sup| - 1]] else [])
  }

  /** The hits on molecule `k`, entry by entry. */
  function SightingsOf(cat: seq<Entry>, sup: seq<Record>, k: MolId): seq<Sighting>
  {
    if cat == [] then []
    else
      var e := cat[|cat| - 1];
      SightingsOf(cat[..|cat| - 1], sup, k) + (if k in e.molIds then Row(e, WithId(sup, k)) else [])
  }

  lemma {:induction false} MatchingAppend(a: seq<Sighting>, b: seq<Sighting>, k: MolId)
    ensures Matching(a + b, k) == Matching(a, k) + Matching(b, k)
  {
    if b != [] {
      var b', y := b[..|b| - 1], b[|b| - 1];
      MatchingAppend(a, b', k);
      assert (a + b)[..|a + b| - 1] == a + b';
    } else {
      assert a + b == a;
    }
  }

  lemma {:induction false} FragsAppend(a: seq<Sighting>, b: seq<Sighting>)
    ensures Frags(a + b) == Frags(a) + Frags(b)
  {
    if b != [] {
      FragsAppend(a, b[..|b| - 1]);
      assert (a + b)[..|a + b| - 1] == a + b[..|b| - 1];
    } else {
      assert a + b == a;
    }
  }

  lemma {:induction false} WithIdAppend(a: seq<Record>, b: seq<Record>, k: MolId)
    ensures WithId(a + b, k) == WithId(a, k) + WithId(b, k)
  {
    if b != [] {
      WithIdAppend(a, b[..|b| - 1], k);
      assert (a + b)[..|a + b| - 1] == a + b[..|b| - 1];
    } else {
      assert a + b == a;
    }
  }

  lemma {:induction false} WithIdAll(sup: seq<Record>, k: MolId)
    ensures |WithId(sup, k)| == Count(sup, k)
    ensures forall t :: 0 <= t < |WithId(sup, k)| ==> WithId(sup, k)[t].id == k
  {
    if sup != [] {
      WithIdAll(sup[..|sup| - 1], k);
    }
  }

  lemma {:induction false} WithIdNonEmpty(sup: seq<Record>, k: MolId)
    ensures WithId(sup, k) != [] <==> exists j :: 0 <= j < |sup| && sup[j].id == k
  {
    if sup != [] {
      var p := sup[..|sup| - 1];
      WithIdNonEmpty(p, k);
      if exists j :: 0 <= j < |p| && p[j].id == k {
        var j :| 0 <= j < |p| && p[j].id == k;
        assert sup[j].id == k;
      }
    }
  }

  lemma WithIdFirst(sup: seq<Record>, k: MolId, j: nat)
    requires j < |sup| && sup[j].id == k
    requires forall j' :: 0 <= j' < j ==> sup[j'].id != k
    ensures WithId(sup, k) != [] && WithId(sup, k)[0] == sup[j]
  {
    var pre, rest := sup[..j], sup[j + 1..];
    assert sup == pre + [sup[j]] + rest;
    WithIdAppend(pre + [sup[j]], rest, k);
    WithIdAppend(pre, [sup[j]], k);
    WithIdNonEmpty(pre, k);
    assert WithId([sup[j]], k) == WithId([], k) + [sup[j]];
  }

  /** A row over records that all pass the entry's test keeps every record. */
  lemma {:induction false} RowAllPass(e: Entry, w: seq<Record>)
    requires forall t :: 0 <= t < |w| ==> w[t].id in e.molIds
    ensures |Row(e, w)| == |w|
    ensures forall t :: 0 <= t < |w| ==> Row(e, w)[t] == Sighting(w[t].id, w[t].smiles, e.frag)
  {
    if w != [] {
      RowAllPass(e, w[..|w| - 1]);
    }
  }

  lemma {:induction false} MatchingRow(e: Entry, sup: seq<Record>, k: MolId)
    ensures Matching(Row(e, sup), k) == if k in e.molIds then Row(e, WithId(sup, k)) else []
  {
    if sup != [] {
      var p, r := sup[..|sup| - 1], sup[|sup| - 1];
      var x := Sighting(r.id, r.smiles, e.frag);
      var tail := if r.id in e.molIds then [x] else [];
      assert Row(e, sup) == Row(e, p) + tail;
      MatchingRow(e, p, k);
      MatchingAppend(Row(e, p), tail, k);
      assert [x][..0] == [];
      assert Matching(tail, k) == if r.id in e.molIds && r.id == k then [x] else [];
      var w := WithId(p, k);
      if r.id == k {
        assert WithId(sup, k) == w + [r];
        assert (w + [r])[..|w|] == w;
        assert Row(e, w + [r]) == Row(e, w) + tail;
      } else {
        assert WithId(sup, k) == w + [] == w;
      }
    }
  }

  lemma {:induction false} MatchingScan(cat: seq<Entry>, sup: seq<Record>, k: MolId)
    ensures Matching(Scan(cat, sup), k) == SightingsOf(cat, sup, k)
  {
    if cat != [] {
      var p, e := cat[..|cat| - 1], cat[|cat| - 1];
      MatchingScan(p, sup, k);
      MatchingAppend(Scan(p, sup), Row(e, sup), k);
      MatchingRow(e, sup, k);
    }
  }

  lemma {:induction false} SightingsOfNonEmpty(cat: seq<Entry>, sup: seq<Record>, k: MolId)
    ensures SightingsOf(cat, sup, k) != [] <==>
            WithId(sup, k) != [] && exists i :: 0 <= i < |cat| && k in cat[i].molIds
  {
    WithIdAll(sup, k);
    if cat != [] {
      var p, e := cat[..|cat| - 1], cat[|cat| - 1];
      SightingsOfNonEmpty(p, sup, k);
      if k in e.molIds {
        RowAllPass(e, WithId(sup, k));
      }
      if exists i :: 0 <= i < |p| && k in p[i].molIds {
        var i :| 0 <= i < |p| && k in p[i].molIds;
        assert k in cat[i].molIds;
      }
    }
  }

  lemma {:induction false} SightingsOfFirst(cat: seq<Entry>, sup: seq<Record>, k: MolId)
    requires SightingsOf(cat, sup, k) != []
    ensures WithId(sup, k) != [] && SightingsOf(cat, sup, k)[0].smiles == WithId(sup, k)[0].smiles
  {
    WithIdAll(sup, k);
    var p, e, w := cat[..|cat| - 1], cat[|cat| - 1], WithId(sup, k);
    var tail := if k in e.molIds then Row(e, w) else [];
    assert SightingsOf(cat, sup, k) == SightingsOf(p, sup, k) + tail;
    if SightingsOf(p, sup, k) != [] {
      SightingsOfFirst(p, sup, k);
      assert SightingsOf(cat, sup, k)[0] == SightingsOf(p, sup, k)[0];
    } else {
      assert SightingsOf(cat, sup, k) == tail;
      assert k in e.molIds;
      RowAllPass(e, w);
      assert |w| > 0 && tail[0] == Sighting(w[0].id, w[0].smiles, e.frag);
    }
  }

  lemma {:induction false} RowFrags(e: Entry, w: seq<Record>)
    requires forall t :: 0 <= t < |w| ==> w[t].id in e.molIds
    ensures Frags(Row(e, w)) == Repeat(e.frag, |w|)
  {
    if w != [] {
      var p := w[..|w| - 1];
      RowFrags(e, p);
      var r := w[|w| - 1];
      assert Row(e, w) == Row(e, p) + [Sighting(r.id, r.smiles, e.frag)];
      assert (Row(e, p) + [Sighting(r.id, r.smiles, e.frag)])[..|Row(e, p)|] == Row(e, p);
      assert Repeat(e.frag, |w|) == Repeat(e.frag, |p|) + [e.frag];
    }
  }

  lemma {:induction false} SightingsOfFrags(cat: seq<Entry>, sup: seq<Record>, k: MolId)
    ensures Frags(SightingsOf(cat, sup, k)) == ExpectedFragments(cat, sup, k)
  {
    if cat != [] {
      var p, e := cat[..|cat| - 1], cat[|cat| - 1];
      SightingsOfFrags(p, sup, k);
      var tail := if k in e.molIds then Row(e, WithId(sup, k)) else [];
      FragsAppend(SightingsOf(p, sup, k), tail);
      WithIdAll(sup, k);
      if k in e.molIds {
        RowFrags(e, WithId(sup, k));
      }
    }
  }

  lemma {:induction false} ExpectedFragmentsSound(cat: seq<Entry>, sup: seq<Record>, k: MolId, f: Smiles)
    requires f in ExpectedFragments(cat, sup, k)
    ensures exists i :: 0 <= i < |cat| && cat[i].frag == f && k in cat[i].molIds
  {
    var p, e := cat[..|cat| - 1], cat[|cat| - 1];
    if f in ExpectedFragments(p, sup, k) {
      ExpectedFragmentsSound(p, sup, k, f);
      var i :| 0 <= i < |p| && p[i].frag == f && k in p[i].molIds;
      assert cat[i] == p[i];
    } else {
      assert cat[|cat| - 1] == e;
    }
  }

  lemma {:induction false} ExpectedFragmentsLength(cat: seq<Entry>, sup: seq<Record>, k: MolId)
    ensures |ExpectedFragments(cat, sup, k)| == Count(sup, k) * Occurrences(cat, k)
  {
    if cat != [] {
      var p, e, c := cat[..|cat| - 1], cat[|cat| - 1], Count(sup, k);
      ExpectedFragmentsLength(p, sup, k);
      var o := Occurrences(p, k);
      if k in e.molIds {
        assert ExpectedFragments(cat, sup, k) == ExpectedFragments(p, sup, k) + Repeat(e.frag, c);
        assert Occurrences(cat, k) == o + 1;
        MulSucc(c, o);
      } else {
        assert ExpectedFragments(cat, sup, k) == ExpectedFragments(p, sup, k) + [];
        assert Occurrences(cat, k) == o;
      }
    }
  }

  lemma MulSucc(c: nat, o: nat)
    ensures c * (o + 1) == c * o + c
  {
  }
}
