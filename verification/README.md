# fragmentizers: the catalogue builder's reverse index, store and output names

`fragmentizer.py` defines the class `FpCatalogue`, whose methods build a
fragment catalogue from a folder of SDF files with RDKit and write three kinds
of output when they are called:

- `build_sdf_catalogue` writes the pickled catalogue. It then calls
  `reverse_fp_catalogue`, which builds a reverse index from molecule id to the
  molecule's SMILES and the fragments found in it, and persists that index to
  an SQLite file through `store_to_sqlite`;
- `generate_molecule_fragments` writes one SDF file per fragment of every
  molecule.

The script's `main` only constructs an `FpCatalogue` and calls none of these
methods, and nothing in the file calls `generate_molecule_fragments`.

This project models the parts of that program that are its own logic rather
than calls into RDKit, SQLite or the filesystem. It is split into three modules.

- `ReverseIndex` (`reverse_index.dfy`) models `FpCatalogue.reverse_fp_catalogue`.
  - The catalogue is a sequence of `Entry(frag, molIds)`, in the order `items()`
    yields them.
  - The SDMolSupplier is a sequence of `Record(id, smiles)`: the `_Name` and the
    `MolToSmiles` of each molecule.
  - The dict is `ReverseMap(keys, entries)`: its insertion order plus its mapping.
  - The nested loops are a `method` that updates the dict in place. It is proved
    equal to `ReverseCatalogue`, a fold of one `Step` per hit of the scan.
  - Lemmas then describe the result directly in terms of the catalogue and the
    supplier: which ids are keys, which SMILES is kept, which fragments are
    listed and how many times, and the order of the keys.
- `Store` (`store.dfy`) models `store_to_sqlite`.
  - The database file is a class `Database` with the two tables as row sequences.
  - `Valid()` is the PRIMARY KEY of `molecules` plus the FOREIGN KEY of `fragments`.
  - A call either commits all its rows or, on an exception, leaves both tables
    as they were.
  - The exceptions modelled are:
    - the IntegrityError from a molecule id already in the table;
    - the UnboundLocalError that the fragment loop raises when the dict is empty.
  - As written, the fragment loop uses the `mol_id` and `mol_info` that the
    molecule loop left behind, so only the last key's fragments are written.
    This is modelled as written and proved. A corrected store is modelled and
    proved beside it (see Findings).
- `Paths` (`paths.dfy`) models the name construction of `build_sdf_catalogue`
  and `generate_molecule_fragments`.
  - It covers the glob pattern, the catalogue pickle, the database file, and the
    per-molecule folders and per-fragment file names.
  - `generate_molecule_fragments` is a method that returns the sequence of
    filesystem actions it performs: `makedirs` and one SDF write per fragment.

Three consequences of the code are worth stating up front. The model
follows the code in each of them.

- The catalogue is saved to `<outdir>/<folder>_catalog.pkl`, with the input
  folder string exactly as given, separators included.
- The store writes only the last key's own fragment list, under the last
  key's id. The fragments of every other molecule are dropped.
- A molecule that no catalogue entry lists never becomes a key of the reverse
  index, so it gets no `molecules` row at all (`ReverseIndexKeys`).

## Model

| member | source | states |
|---|---|---|
| `ReverseIndex.ReverseFpCatalogue` | fragmentizer.py:72-87 | The in-place nested loops build exactly `ReverseCatalogue(cat, sup)`, and the dict they build is well formed: the keys are distinct and are exactly the mapped ids. |
| `ReverseIndex.ReverseIndexKeys` | fragmentizer.py:77-86 | An id is a key if and only if some supplier record has that id and some catalogue entry lists it. |
| `ReverseIndex.ReverseIndexWellFormed` | fragmentizer.py:82-86 | The key order has no repeats, and it holds exactly the ids the dict maps. |
| `ReverseIndex.ReverseIndexSmiles` | fragmentizer.py:80-86 | The stored SMILES is the one from the first supplier record with that id. Later records with the same id never overwrite it. |
| `ReverseIndex.ReverseIndexFragments` | fragmentizer.py:77-87 | A molecule's fragment list is the reference list `ExpectedFragments`. It follows catalogue order, and each entry that lists the molecule contributes its fragment once per supplier record with that id. |
| `ReverseIndex.ReverseIndexFragmentSound` | fragmentizer.py:81-87 | Every fragment listed for a molecule is the fragment of some catalogue entry whose id set holds that molecule. |
| `ReverseIndex.ReverseIndexFragmentCount` | fragmentizer.py:77-87 | A molecule's fragment count is (supplier records with its id) × (catalogue entries listing it). |
| `ReverseIndex.ReverseIndexOrder` | fragmentizer.py:77-86 | Dict keys are in order of first sighting: before any hit on a later key, every earlier key has already been hit. |
| `Store.Database.constructor` | fragmentizer.py:95-102 | The tables of a fresh database file are empty and satisfy both key constraints. |
| `Store.Database.StoreToSqlite` | fragmentizer.py:90-122 | The result is `StoreAsWritten` of the rows already stored. On commit, both tables grow by exactly the returned rows. On failure, both tables are unchanged. Both key constraints still hold afterwards. |
| `Store.Database.ReverseAndStore` | fragmentizer.py:72-88 | Inverting the catalogue and then storing it gives `StoreAsWritten` applied to `ReverseCatalogue`, with the same table effects as `StoreToSqlite`. |
| `Store.InsertAsWritten` | fragmentizer.py:104-118 | The insert loops as written compute `StoreAsWritten`. A clash gives a duplicate error. Otherwise an empty dict gives the unbound-variable error. Otherwise the result is one row per key plus the last key's fragments. |
| `Store.InsertMolecules` | fragmentizer.py:104-108 | The molecule loop reports the first id that is already stored. Without a clash, it yields one row per key in key order, and its loop variable is left at the last key, or unbound for an empty dict. |
| `Store.InsertFragments` | fragmentizer.py:114-118 | The fragment loop appends one row per fragment, in list order, each tagged with the given molecule id, and leaves the earlier rows as they were. |
| `Store.StoreAsWrittenOutcome` | fragmentizer.py:104-118 | The store commits if and only if the dict is non-empty and none of its ids is already stored. The unbound-variable error happens exactly when the dict is empty. A duplicate error names an id that is both a key and already stored. |
| `Store.StoreAsWrittenMolecules` | fragmentizer.py:104-108 | On commit there is one `molecules` row per key, in key order, carrying that key's SMILES, and the PRIMARY KEY still holds. |
| `Store.StoreAsWrittenFragments` | fragmentizer.py:114-118 | On commit every fragment row names the last key and holds exactly that key's fragments, in order. Every other id gets no fragment rows. |
| `Store.StoreAsWrittenDropsFragments` | fragmentizer.py:104-118 | On a two-entry catalogue, molecule B is a key with fragments [F1, F2], yet the stored fragments are only [F2 under A]. |
| `Store.StoreAsWrittenTwiceFails` | fragmentizer.py:95-108 | Storing the same dict again into the same file fails with a duplicate error on its first key. The tables are kept by CREATE TABLE IF NOT EXISTS, and the PRIMARY KEY rejects the repeated id. |
| `Store.Database.StoreToSqliteOwned` | fragmentizer.py:104-118 | The corrected store computes `StoreOwned`, commits its rows or leaves the tables unchanged, and keeps both key constraints. |
| `Store.InsertOwned` | fragmentizer.py:104-118 | The corrected loops, which insert each molecule's fragments right after its row, compute `StoreOwned`. |
| `Store.StoreOwnedOutcome` | fragmentizer.py:104-118 | The corrected store commits if and only if no key is already stored. An empty dict commits no rows. |
| `Store.StoreOwnedFragments` | fragmentizer.py:114-118 | In the corrected store, each key's fragment rows are exactly its own fragments, in order. A non-key gets no rows. Every row names a key of this call. |
| `Store.StoreOwnedTwiceFails` | fragmentizer.py:95-108 | The corrected store, run twice with the same non-empty dict, also fails the second time on the dict's first key. |
| `Store.StoreOwnedKeepsKeys` | fragmentizer.py:95-102 | The corrected rows keep the PRIMARY KEY of `molecules` and the FOREIGN KEY of `fragments` on any valid database. |
| `Paths.GlobPattern` | fragmentizer.py:31-33 | The POSIX `os.path.join(folder, "*.sdf")` starts with the folder, ends with `*.sdf`, and has exactly one separator between them. It is just `*.sdf` for an empty folder. |
| `Paths.CataloguePath` | fragmentizer.py:47-49 | The pickle path is the output directory, a separator, the folder string unchanged, then `_catalog.pkl`. |
| `Paths.CatalogueDir` | fragmentizer.py:47-49 | The pickle is opened in the directory of `<outdir>/<folder>`. That is `outdir` itself exactly when the folder string has no separator. |
| `Paths.DatabasePath` | fragmentizer.py:92 | The database path is the output directory, a separator, then `mol_to_fragments.db`. |
| `Paths.OutputsDistinct` | fragmentizer.py:47-68 | The catalogue, the database and any fragment file never share a name. |
| `Paths.DecimalString` | fragmentizer.py:67 | The fragment number is written in decimal. The numeral is non-empty and all digits, and it starts with `0` only for zero. |
| `Paths.DecimalRoundTrip` | fragmentizer.py:67 | Parsing the decimal numeral of a number gives the number back. |
| `Paths.FragmentFile` | fragmentizer.py:63-68 | A fragment file name is the molecule's folder `<outdir>/fragments/<mol_id>` and a separator, then `<mol_id>_frag`, then the fragment number in decimal, then `.sdf`. |
| `Paths.FragmentFileRoundTrip` | fragmentizer.py:63-68 | A fragment file lies inside its molecule's folder, and its fragment number can be read back from its name. |
| `Paths.FragmentFilesDistinct` | fragmentizer.py:66-68 | Two different fragment numbers of one molecule give two different file names. |
| `Paths.GenerateMoleculeFragments` | fragmentizer.py:52-70 | The loops perform exactly `FragmentPlan`: for each molecule in order, create its folder, then write its fragments. |
| `Paths.MolWritesNames` | fragmentizer.py:66-69 | A molecule with n fragments gets the writes `_frag0` … `_frag(n-1)`, in order, and write j carries fragment j. |
| `Paths.MolWritesDistinct` | fragmentizer.py:63-68 | One molecule's writes go to pairwise distinct files, all inside its folder. |
| `Paths.PlanDirsBeforeWrites` | fragmentizer.py:63-68 | For any molecule ids, every write path starts with a folder that an earlier action created, followed by a separator. |
| `Paths.FragmentFileDir` | fragmentizer.py:63-68 | For an id without '/', a fragment file's directory (the text before its last '/') is exactly its molecule's folder. |
| `Paths.PlanWritesIntoCreatedDirs` | fragmentizer.py:63-68 | When no molecule id contains '/', every write opens its file directly in a folder that an earlier `makedirs` created. |
| `Paths.SlashInIdWritesElsewhere` | fragmentizer.py:63-68 | For the id `a/b`, the folder created is `o/fragments/a/b`, but the fragment file is opened in `o/fragments/a/b/a`, so no write lands in a created folder. |

## Left out

- The RDKit calls are not modelled. The catalogue and the supplier are inputs: `SDMolSupplier` and `SetData`, `FragCatGenerator.Build`, `GetMols`, `FragmentsFromMol`, `MolToSmiles` and `GetProp("_Name")`. The fragment payloads of `generate_molecule_fragments` are a type parameter.
- `build_sdf_catalogue` is modelled only through its name construction and the call into the reverse index. The glob, the catalogue parameters and `SaveCatalog` are I/O and engine calls.
- Some SQLite and filesystem I/O appears only as the table and action state: connecting, closing, `os.makedirs`, `SDWriter` and pickling.
- `CREATE TABLE IF NOT EXISTS` on an existing file is not separate from the constructor. A `Database` object stands for the file and its contents across calls.
- The AUTOINCREMENT `id` column of `fragments` is not modelled, and neither is the `lastrowid` read at line 111, whose value is never used.
- SQLite leaves foreign keys unenforced by default. The model states the FOREIGN KEY as an invariant that both store variants keep, rather than as a check that could fail.
- `None` entries yielded by the supplier for unreadable records are not modelled. Every record has an id and a SMILES.
- `main` constructs an `FpCatalogue` and calls none of its methods, and no code calls `generate_molecule_fragments`; the model treats each method as called on its own. `main`, the `utilities` module (argument parsing, logging) and the `constants` module are not part of this model. The same goes for the logger and the `threads` parameter, which is only forwarded to RDKit.
- `Paths.PlanWritesIntoCreatedDirs` requires molecule ids without '/'. For an id with '/', the SDF writer opens a file in `<outdir>/fragments/<id>/<id up to its last '/'>`, which differs from the folder `makedirs` created (`Paths.SlashInIdWritesElsewhere`). The write can then fail, for example for `a/b`; for an id like `./x` the path still resolves into the created folder. Path resolution (`.`, `..`) and the resulting OSError are not modelled; the model still lists the write as an action.
- `Paths.CataloguePath`: when the folder string contains '/', the pickle is opened in `<outdir>/<folder up to its last '/'>` (`Paths.CatalogueDir`), a directory the program does not create, for example for `data/mols`. `SaveCatalog` fails when no such directory exists; for `./mols` or `../mols` it resolves to an existing directory. Path resolution and the failure of `SaveCatalog` are not modelled.
- Paths are built with POSIX separators. `os.path.join` on other platforms is not modelled.

## Findings

| source | as written | input that shows it | evidently intended | confidence | as-written member | corrected member |
|---|---|---|---|---|---|---|
| fragmentizer.py:114-118 | The fragment loop runs once, after the molecule loop, over `mol_info["fragments"]` with `mol_id`. Both are left over from the last key, so every other molecule's fragments are never stored. | The catalogue `[F1: {B}, F2: {A, B}]` over the supplier `[A, B]` gives the dict order `[B, A]`. B's fragments `[F1, F2]` are lost, and only `F2` under `A` is stored. | Every molecule's fragments are stored under its own id. | not executed | `Store.StoreAsWrittenDropsFragments` | `Store.StoreOwnedFragments` |
| fragmentizer.py:114 | With an empty dict, the molecule loop never binds `mol_info`. The fragment loop then raises UnboundLocalError, and nothing is committed. | A catalogue whose id sets match no supplier record gives an empty dict. | An empty index commits two empty tables. | not executed | `Store.StoreAsWrittenOutcome` | `Store.StoreOwnedOutcome` |
