/**
 * Output naming of the catalogue builder: the glob pattern for the input
 * folder, the pickled catalogue, the database file, and the per-fragment SDF
 * files of generate_molecule_fragments, whose filesystem work is modelled as
 * the sequence of actions it performs.
 */
module Paths {
  import opened ReverseIndex

  // ---------------------------------------------------------------------------
  // Decimal numerals (Python's str() of a non-negative int)
  // ---------------------------------------------------------------------------

  predicate IsDigit(c: char)
  {
    '0' <= c <= '9'
  }

  predicate AllDigits(s: string)
  {
    forall i :: 0 <= i < |s| ==> IsDigit(s[i])
  }

  function Digit(d: nat): (c: char)
    requires d < 10
    ensures IsDigit(c) && c as int - '0' as int == d
  {
    ('0' as int + d) as char
  }

  /** The decimal numeral of `n`: digits only, and no leading zero except for 0 itself. */
  function DecimalString(n: nat): (s: string)
    ensures |s| >= 1 && AllDigits(s)
    ensures s[0] == '0' <==> n == 0
  {
    if n < 10 then [Digit(n)] else DecimalString(n / 10) + [Digit(n % 10)]
  }

  function ParseDecimal(s: string): nat
    requires AllDigits(s)
  {
    if s == [] then 0 else ParseDecimal(s[..|s| - 1]) * 10 + (s[|s| - 1] as int - '0' as int)
  }

  lemma {:induction false} DecimalRoundTrip(n: nat)
    ensures ParseDecimal(DecimalString(n)) == n
  {
    var s := DecimalString(n);
    if n < 10 {
      assert s[..0] == [];
    } else {
      DecimalRoundTrip(n / 10);
      assert s[..|s| - 1] == DecimalString(n / 10);
    }
  }

  // ---------------------------------------------------------------------------
  // Directory of a path
  // ---------------------------------------------------------------------------

  /** The text before the last '/' of a path (the folder a file is opened in); empty when there is none. */
  function Dirname(p: string): string
  {
    if p == [] then []
    else if p[|p| - 1] == '/' then p[..|p| - 1]
    else Dirname(p[..|p| - 1])
  }

  lemma {:induction false} DirnameNoSlash(s: string, t: string)
    requires '/' !in t
    ensures Dirname(s + t) == Dirname(s)
  {
    if t != [] {
      var t' := t[..|t| - 1];
      assert (s + t)[..|s + t| - 1] == s + t';
      assert (s + t)[|s + t| - 1] == t[|t| - 1];
      DirnameNoSlash(s, t');
    } else {
      assert s + t == s;
    }
  }

  /** A file name without separators, joined under `a`, lies directly in `a`. */
  lemma DirnameJoin(a: string, t: string)
    requires '/' !in t
    ensures Dirname(a + "/" + t) == a
  {
    DirnameNoSlash(a + "/", t);
    assert (a + "/")[..|a|] == a;
  }

  /** A separator after `s` keeps all of `s` in the directory part. */
  lemma {:induction false} DirnameLonger(s: string, t: string)
    requires '/' in t
    ensures |Dirname(s + t)| >= |s|
  {
    var t' := t[..|t| - 1];
    assert t == t' + [t[|t| - 1]];
    assert (s + t)[..|s + t| - 1] == s + t';
    if t[|t| - 1] != '/' {
      assert '/' in t';
      DirnameLonger(s, t');
    }
  }

  // ---------------------------------------------------------------------------
  // Paths
  // ---------------------------------------------------------------------------

  /**
   * `os.path.join(folder, "*.sdf")` (POSIX): the folder, then exactly one
   * separator unless the folder is empty, then the pattern.
   */
  function GlobPattern(folder: string): (p: string)
    ensures |folder| <= |p| && p[..|folder|] == folder
    ensures |p| >= 5 && p[|p| - 5..] == "*.sdf"
    ensures folder == [] ==> p == "*.sdf"
    ensures folder != [] ==> |p| == |folder| + 6 - (if folder[|folder| - 1] == '/' then 1 else 0) && p[|p| - 6] == '/'
  {
    if folder == [] || folder[|folder| - 1] == '/' then folder + "*.sdf" else folder + "/*.sdf"
  }

  /** `<outdir>/<folder>_catalog.pkl`: the input folder string is used as given, separators included. */
  function CataloguePath(outdir: string, folder: string): (p: string)
    ensures |p| == |outdir| + |folder| + 13
    ensures p[..|outdir| + 1] == outdir + "/"
    ensures p[|outdir| + 1..|p| - 12] == folder
    ensures p[|p| - 12..] == "_catalog.pkl"
  {
    outdir + "/" + folder + "_catalog.pkl"
  }

  /**
   * The pickle is opened in `<outdir>/<folder>` with the folder's last
   * component dropped: `outdir` itself only when the folder has no separator.
   */
  lemma CatalogueDir(outdir: string, folder: string)
    ensures Dirname(CataloguePath(outdir, folder)) == Dirname(outdir + "/" + folder)
    ensures '/' !in folder <==> Dirname(CataloguePath(outdir, folder)) == outdir
  {
    assert CataloguePath(outdir, folder) == (outdir + "/" + folder) + "_catalog.pkl";
    DirnameNoSlash(outdir + "/" + folder, "_catalog.pkl");
    if '/' !in folder {
      DirnameJoin(outdir, folder);
    } else {
      assert CataloguePath(outdir, folder) == (outdir + "/") + (folder + "_catalog.pkl");
      DirnameLonger(outdir + "/", folder + "_catalog.pkl");
    }
  }

  /** `<outdir>/mol_to_fragments.db`. */
  function DatabasePath(outdir: string): (p: string)
    ensures |p| == |outdir| + 20
    ensures p[..|outdir| + 1] == outdir + "/"
    ensures p[|outdir| + 1..] == "mol_to_fragments.db"
  {
    (outdir + "/") + "mol_to_fragments.db"
  }

  /** `<outdir>/fragments/<mol_id>`, the folder of one molecule's fragment files. */
  function FragmentFolder(outdir: string, molId: MolId): string
  {
    outdir + "/fragments/" + molId
  }

  /** `<mol_id>_frag<j>`. */
  function FragmentId(molId: MolId, j: nat): string
  {
    molId + "_frag" + DecimalString(j)
  }

  /**
   * `<outdir>/fragments/<mol_id>/<mol_id>_frag<j>.sdf`: the molecule's
   * folder and a separator, the id and `_frag`, the decimal number, `.sdf`.
   */
  function FragmentFile(outdir: string, molId: MolId, j: nat): (f: string)
    ensures var pre := FragmentPrefix(outdir, molId);
            && |f| == |pre| + |DecimalString(j)| + 4
            && f[..|FragmentFolder(outdir, molId) + "/"|] == FragmentFolder(outdir, molId) + "/"
            && f[..|pre|] == pre
            && f[|pre|..|f| - 4] == DecimalString(j)
            && f[|f| - 4..] == ".sdf"
  {
    assert FragmentFolder(outdir, molId) + "/" + FragmentId(molId, j) + ".sdf" ==
           (FragmentFolder(outdir, molId) + "/") + (molId + "_frag") + DecimalString(j) + ".sdf";
    FragmentFolder(outdir, molId) + "/" + FragmentId(molId, j) + ".sdf"
  }

  /** What precedes the fragment number in a fragment file name. */
  function FragmentPrefix(outdir: string, molId: MolId): string
  {
    FragmentFolder(outdir, molId) + "/" + molId + "_frag"
  }

  /** Reads the fragment number back out of a fragment file name. */
  function FragmentIndex(outdir: string, molId: MolId, name: string): nat
    requires |FragmentPrefix(outdir, molId)| + 4 <= |name|
    requires AllDigits(name[|FragmentPrefix(outdir, molId)|..|name| - 4])
  {
    ParseDecimal(name[|FragmentPrefix(outdir, molId)|..|name| - 4])
  }

  /** A fragment file lies in its molecule's folder, and its number reads back. */
  lemma FragmentFileRoundTrip(outdir: string, molId: MolId, j: nat)
    ensures var name := FragmentFile(outdir, molId, j);
            && |FragmentFolder(outdir, molId) + "/"| <= |name|
            && name[..|FragmentFolder(outdir, molId) + "/"|] == FragmentFolder(outdir, molId) + "/"
            && |FragmentPrefix(outdir, molId)| + 4 <= |name|
            && AllDigits(name[|FragmentPrefix(outdir, molId)|..|name| - 4])
            && FragmentIndex(outdir, molId, name) == j
  {
    var pre, d := FragmentPrefix(outdir, molId), DecimalString(j);
    var name := FragmentFile(outdir, molId, j);
    assert name == pre + d + ".sdf";
    assert name[|pre|..|name| - 4] == d;
    DecimalRoundTrip(j);
  }

  /** For an id without separators, a fragment file lies directly in its molecule's folder. */
  lemma FragmentFileDir(outdir: string, molId: MolId, j: nat)
    requires '/' !in molId
    ensures Dirname(FragmentFile(outdir, molId, j)) == FragmentFolder(outdir, molId)
  {
    var d := DecimalString(j);
    var tail := molId + "_frag" + d + ".sdf";
    assert FragmentFile(outdir, molId, j) == FragmentFolder(outdir, molId) + "/" + tail;
    assert '/' !in d by {
      forall i | 0 <= i < |d| ensures d[i] != '/' {
        assert IsDigit(d[i]);
      }
    }
    assert '/' !in "_frag" && '/' !in ".sdf";
    DirnameJoin(FragmentFolder(outdir, molId), tail);
  }

  /** Different fragment numbers give different file names. */
  lemma FragmentFilesDistinct(outdir: string, molId: MolId, j1: nat, j2: nat)
    requires j1 != j2
    ensures FragmentFile(outdir, molId, j1) != FragmentFile(outdir, molId, j2)
  {
    FragmentFileRoundTrip(outdir, molId, j1);
    FragmentFileRoundTrip(outdir, molId, j2);
  }

  /**
   * The three kinds of output never share a name: the catalogue ends in
   * `.pkl`, the database in `.db` and every fragment file in `.sdf`.
   */
  lemma OutputsDistinct(outdir: string, folder: string, molId: MolId, j: nat)
    ensures CataloguePath(outdir, folder) != DatabasePath(outdir)
    ensures CataloguePath(outdir, folder) != FragmentFile(outdir, molId, j)
    ensures DatabasePath(outdir) != FragmentFile(outdir, molId, j)
  {
    var c, d, f := CataloguePath(outdir, folder), DatabasePath(outdir), FragmentFile(outdir, molId, j);
    assert c[|c| - 1] == 'l';
    assert d[|d| - 1] == 'b';
    assert f[|f| - 1] == 'f';
  }

  // ---------------------------------------------------------------------------
  // generate_molecule_fragments
  // ---------------------------------------------------------------------------

  /** A molecule of the catalogue: its `_Name` and what `FragmentsFromMol` gives for it. */
  datatype CatalogMol<F> = CatalogMol(id: MolId, fragments: seq<F>)

  /** The filesystem work: `os.makedirs(dir, exist_ok=True)` or one `SDWriter` write. */
  datatype FileAction<F> = MakeDirs(dir: string) | WriteSdf(path: string, fragment: F)

  /** The writes for one molecule's fragments, in enumeration order. */
  function MolWrites<F>(outdir: string, molId: MolId, frags: seq<F>): seq<FileAction<F>>
  {
    if frags == [] then []
    else MolWrites(outdir, molId, frags[..|frags| - 1]) + [WriteSdf(FragmentFile(outdir, molId, |frags| - 1), frags[|frags| - 1])]
  }

  /** All actions: per molecule, create its folder, then write its fragments. */
  function FragmentPlan<F>(outdir: string, mols: seq<CatalogMol<F>>): seq<FileAction<F>>
  {
    if mols == [] then []
    else
      var m := mols[|mols| - 1];
      FragmentPlan(outdir, mols[..|mols| - 1]) + [MakeDirs(FragmentFolder(outdir, m.id))] + MolWrites(outdir, m.id, m.fragments)
  }

  method GenerateMoleculeFragments<F>(outdir: string, mols: seq<CatalogMol<F>>) returns (actions: seq<FileAction<F>>)
    ensures actions == FragmentPlan(outdir, mols)
  {
    actions := [];
    var i := 0;
    while i < |mols|
      invariant 0 <= i <= |mols|
      invariant actions == FragmentPlan(outdir, mols[..i])
    {
      var mol := mols[i];
      var outFolder := FragmentFolder(outdir, mol.id);
      actions := actions + [MakeDirs(outFolder)];
      ghost var before := actions;
      var j := 0;
      while j < |mol.fragments|
        invariant 0 <= j <= |mol.fragments|
        invariant actions == before + MolWrites(outdir, mol.id, mol.fragments[..j])
      {
        var fragId := FragmentId(mol.id, j);
        assert mol.fragments[..j + 1][..j] == mol.fragments[..j];
        actions := actions + [WriteSdf(outFolder + "/" + fragId + ".sdf", mol.fragments[j])];
        j := j + 1;
      }
      assert mol.fragments[..j] == mol.fragments;
      assert mols[..i + 1][..i] == mols[..i];
      i := i + 1;
    }
    assert mols[..i] == mols;
  }

  /** A molecule with n fragments gets the files `_frag0` to `_frag(n-1)`, in order, with the fragments in order. */
  lemma {:induction false} MolWritesNames<F>(outdir: string, molId: MolId, frags: seq<F>)
    ensures |MolWrites(outdir, molId, frags)| == |frags|
    ensures forall j :: 0 <= j < |frags| ==> MolWrites(outdir, molId, frags)[j] == WriteSdf(FragmentFile(outdir, molId, j), frags[j])
  {
    if frags != [] {
      MolWritesNames(outdir, molId, frags[..|frags| - 1]);
    }
  }

  /** The files of one molecule are pairwise distinct and all lie in its folder. */
  lemma MolWritesDistinct<F>(outdir: string, molId: MolId, frags: seq<F>)
    ensures var w := MolWrites(outdir, molId, frags);
            && (forall a, b :: 0 <= a < b < |w| ==> w[a].WriteSdf? && w[b].WriteSdf? && w[a].path != w[b].path)
            && forall a :: 0 <= a < |w| ==> w[a].WriteSdf? && FragmentFolder(outdir, molId) + "/" <= w[a].path
  {
    MolWritesNames(outdir, molId, frags);
    forall a, b | 0 <= a < b < |frags| ensures FragmentFile(outdir, molId, a) != FragmentFile(outdir, molId, b) {
      FragmentFilesDistinct(outdir, molId, a, b);
    }
    forall a | 0 <= a < |frags| ensures FragmentFolder(outdir, molId) + "/" <= FragmentFile(outdir, molId, a) {
      FragmentFileRoundTrip(outdir, molId, a);
    }
  }

  /** Every write goes into a folder that an earlier action created. */
  ghost predicate DirsBeforeWrites<F>(actions: seq<FileAction<F>>)
  {
    forall t :: 0 <= t < |actions| && actions[t].WriteSdf? ==>
      exists u :: 0 <= u < t && actions[u].MakeDirs? && actions[u].dir + "/" <= actions[t].path
  }

  lemma {:induction false} PlanDirsBeforeWrites<F>(outdir: string, mols: seq<CatalogMol<F>>)
    ensures DirsBeforeWrites(FragmentPlan(outdir, mols))
  {
    if mols != [] {
      var p, m := mols[..|mols| - 1], mols[|mols| - 1];
      PlanDirsBeforeWrites(outdir, p);
      var before := FragmentPlan(outdir, p);
      var mk: FileAction<F> := MakeDirs(FragmentFolder(outdir, m.id));
      var w := MolWrites(outdir, m.id, m.fragments);
      var plan: seq<FileAction<F>> := before + [mk] + w;
      forall t | 0 <= t < |plan| && plan[t].WriteSdf?
        ensures exists u :: 0 <= u < t && plan[u].MakeDirs? && plan[u].dir + "/" <= plan[t].path
      {
        if t < |before| {
          var u :| 0 <= u < t && before[u].MakeDirs? && before[u].dir + "/" <= before[t].path;
          assert plan[u] == before[u];
        } else {
          assert t > |before|;
          var a := t - |before| - 1;
          assert 0 <= a < |w| && plan[t] == w[a];
          MolWritesNames(outdir, m.id, m.fragments);
          FragmentFileRoundTrip(outdir, m.id, a);
          assert w[a].WriteSdf? && FragmentFolder(outdir, m.id) + "/" <= w[a].path;
          assert plan[|before|] == mk;
          assert plan[|before|].MakeDirs? && plan[|before|].dir + "/" <= plan[t].path;
        }
      }
    }
  }

  /** Every write opens its file directly in a folder that an earlier action created. */
  ghost predicate WritesIntoCreatedDirs<F>(actions: seq<FileAction<F>>)
  {
    forall t :: 0 <= t < |actions| && actions[t].WriteSdf? ==>
      exists u :: 0 <= u < t && actions[u].MakeDirs? && actions[u].dir == Dirname(actions[t].path)
  }

  lemma {:induction false} PlanWritesIntoCreatedDirs<F>(outdir: string, mols: seq<CatalogMol<F>>)
    requires forall i :: 0 <= i < |mols| ==> '/' !in mols[i].id
    ensures WritesIntoCreatedDirs(FragmentPlan(outdir, mols))
  {
    if mols != [] {
      var p, m := mols[..|mols| - 1], mols[|mols| - 1];
      PlanWritesIntoCreatedDirs(outdir, p);
      var before := FragmentPlan(outdir, p);
      var mk: FileAction<F> := MakeDirs(FragmentFolder(outdir, m.id));
      var w := MolWrites(outdir, m.id, m.fragments);
      var plan: seq<FileAction<F>> := before + [mk] + w;
      forall t | 0 <= t < |plan| && plan[t].WriteSdf?
        ensures exists u :: 0 <= u < t && plan[u].MakeDirs? && plan[u].dir == Dirname(plan[t].path)
      {
        if t < |before| {
          var u :| 0 <= u < t && before[u].MakeDirs? && before[u].dir == Dirname(before[t].path);
          assert plan[u] == before[u];
        } else {
          assert t > |before|;
          var a := t - |before| - 1;
          assert 0 <= a < |w| && plan[t] == w[a];
          MolWritesNames(outdir, m.id, m.fragments);
          FragmentFileDir(outdir, m.id, a);
          assert plan[|before|] == mk;
          assert plan[|before|].MakeDirs? && plan[|before|].dir == Dirname(plan[t].path);
        }
      }
    }
  }

  /** The plan for one molecule `a/b` with one fragment. */
  lemma SlashPlan()
    ensures FragmentPlan("o", [CatalogMol("a/b", [0])]) ==
            [MakeDirs(FragmentFolder("o", "a/b")), WriteSdf(FragmentFile("o", "a/b", 0), 0)]
  {
    var mols := [CatalogMol("a/b", [0])];
    assert mols[..0] == [];
    assert [0][..0] == [];
    assert MolWrites("o", "a/b", [0]) == [WriteSdf(FragmentFile("o", "a/b", 0), 0)];
  }

  lemma SlashNames()
    ensures FragmentFolder("o", "a/b") == "o/fragments/a/b"
    ensures FragmentFile("o", "a/b", 0) == "o/fragments/a/b/a" + "/" + "b_frag0.sdf"
  {
    assert DecimalString(0) == "0";
  }

  /**
   * A molecule named `a/b`: the folder created is `o/fragments/a/b`, but its
   * fragment file is opened in `o/fragments/a/b/a`, which nothing creates.
   */
  lemma SlashInIdWritesElsewhere()
    ensures var plan := FragmentPlan("o", [CatalogMol("a/b", [0])]);
            && |plan| == 2 && plan[0] == MakeDirs("o/fragments/a/b") && plan[1].WriteSdf?
            && Dirname(plan[1].path) == "o/fragments/a/b/a"
            && !WritesIntoCreatedDirs(plan)
  {
    SlashPlan();
    SlashNames();
    DirnameJoin("o/fragments/a/b/a", "b_frag0.sdf");
    assert "o/fragments/a/b" != "o/fragments/a/b/a" by {
      assert |"o/fragments/a/b"| != |"o/fragments/a/b/a"|;
    }
  }
}
