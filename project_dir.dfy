/**
 * The Nx project-directory resolver of getProjectDir.ts: which folder a
 * workspace keeps its libraries in, and the directory of a project, found
 * from the executor context as `<root>/<libs folder>/<basename of the
 * project name>`.
 */
module ProjectDir {
  import opened Wrappers
  import opened PosixPath

  /** `workspaceLayout` in nx.json: where applications and libraries live. */
  datatype WorkspaceLayout = WorkspaceLayout(appsDir: Option<string>, libsDir: Option<string>)

  /** The part of nx.json (Nx's NxJsonConfiguration) that the resolver reads. */
  datatype NxJsonConfiguration = NxJsonConfiguration(workspaceLayout: Option<WorkspaceLayout>)

  /** The empty configuration `{}`. */
  const EmptyNxJson: NxJsonConfiguration := NxJsonConfiguration(None)

  /** The libraries folder assumed when nx.json names none. */
  const DefaultLibsDir: string := "libs"

  /** The three fields the resolver picks from Nx's ExecutorContext. */
  datatype ExecutorContext = ExecutorContext(
    projectName: Option<string>,
    root: string,
    nxJsonConfiguration: Option<NxJsonConfiguration>)

  /** Every link of `nxJsonConfiguration?.workspaceLayout?.libsDir` is present. */
  predicate LibsDirConfigured(config: Option<NxJsonConfiguration>) {
    config.Some? && config.value.workspaceLayout.Some?
    && config.value.workspaceLayout.value.libsDir.Some?
  }

  /** `getNxLibFolder`: the configured libraries folder, else "libs". */
  function GetNxLibFolder(config: Option<NxJsonConfiguration>): (r: string)
    ensures LibsDirConfigured(config) ==> r == config.value.workspaceLayout.value.libsDir.value
    ensures !LibsDirConfigured(config) ==> r == DefaultLibsDir
  {
    match config
    case Some(NxJsonConfiguration(Some(WorkspaceLayout(_, Some(dir))))) => dir
    case _ => DefaultLibsDir
  }

  /** `readNxLibsFolder`, given what reading nx.json from the workspace tree
      produced: a missing file counts as the empty configuration. */
  function ReadNxLibsFolder(nxJson: Option<NxJsonConfiguration>): (r: string)
    ensures r == GetNxLibFolder(nxJson)
    ensures nxJson.None? ==> r == DefaultLibsDir
  {
    GetNxLibFolder(Some(nxJson.GetOr(EmptyNxJson)))
  }

  /** `getProjectDir`: no directory without a project name; otherwise the
      workspace root joined with the libraries folder joined with the last
      piece of the project name (so "@scope/foo" lives in ".../foo"). */
  function GetProjectDir(context: ExecutorContext): (r: Option<string>)
    ensures r.None? <==> context.projectName.None?
    ensures r.Some? ==> |r.value| > 0
    ensures r.Some? && IsAbsolute(context.root) ==> IsAbsolute(r.value)
  {
    match context.projectName
    case None => None
    case Some(name) =>
      var inner := Join([GetNxLibFolder(context.nxJsonConfiguration), Basename(name)]);
      JoinedOfTwo(context.root, inner);
      Some(Join([context.root, inner]))
  }

  /** The two nested joins amount to one flat join of root, libraries folder
      and basename, unless the libraries folder is absolute (then its own
      ".." pieces are resolved against "/" before the root is prefixed) or
      both it and the basename are empty. */
  lemma ProjectDirIsFlatJoin(context: ExecutorContext, name: string)
    requires context.projectName == Some(name)
    requires !IsAbsolute(GetNxLibFolder(context.nxJsonConfiguration))
    requires GetNxLibFolder(context.nxJsonConfiguration) != "" || Basename(name) != ""
    ensures GetProjectDir(context)
         == Some(Join([context.root, GetNxLibFolder(context.nxJsonConfiguration), Basename(name)]))
  {
    var lib, base := GetNxLibFolder(context.nxJsonConfiguration), Basename(name);
    if lib == "" {
      assert base[0] in base;
    }
    JoinNested(context.root, lib, base);
  }

  /** Why the flat reading needs a relative libraries folder: with libsDir
      "/..", root "r" and project "x" the nested joins give "r/x", while the
      flat join gives "x". */
  lemma AbsoluteLibsDirIsNotFlat(context: ExecutorContext, name: string)
    requires context.projectName == Some(name) && IsName(name) && IsName(context.root)
    requires context.nxJsonConfiguration == Some(NxJsonConfiguration(Some(WorkspaceLayout(None, Some("/..")))))
    ensures GetProjectDir(context) == Some(context.root + [Sep] + name)
    ensures Join([context.root, GetNxLibFolder(context.nxJsonConfiguration), Basename(name)]) == name
  {
    BasenameOfPiece(name);
    JoinRootedParent(name);
    JoinRootAndRooted(context.root, name);
    JoinFlatRootedParent(context.root, name);
    ProjectDirUnfolds(context, name);
  }

  /** The pieces of "/.." followed by `x`. */
  lemma SplitRootedParent(x: string)
    requires IsName(x)
    ensures Split("/.." + [Sep] + x) == ["", "..", x]
  {
    assert "/.." == [Sep] + ".." && Sep !in "..";
    SplitRootedPair("..", x);
  }

  lemma SplitRootedPair(a: string, x: string)
    requires Sep !in a && Sep !in x
    ensures Split([Sep] + a + [Sep] + x) == ["", a, x]
  {
    SplitOfRooted(a);
    SplitOfPiece(a);
    SplitAtSep([Sep] + a, x);
    SplitOfPiece(x);
  }

  /** `path.join("/..", x)` is "/x": ".." at the root is dropped. */
  lemma JoinRootedParent(x: string)
    requires IsName(x)
    ensures Join(["/..", x]) == [Sep] + x
  {
    SplitRootedParent(x);
    assert ResolveFrom([], ["", "..", x], false) == [x] by {
      assert ["", "..", x][..2] == ["", ".."];
      assert ["", ".."][..1] == [""];
      ResolveBlanks([], false);
    }
    JoinedOfTwo("/..", x);
    assert Join(["/..", x]) == Render(true, [x], false);
  }

  /** `path.join(r, "/" + x)` is "r/x". */
  lemma JoinRootAndRooted(r: string, x: string)
    requires IsName(r) && IsName(x)
    ensures Join([r, [Sep] + x]) == r + [Sep] + x
  {
    var text := r + [Sep] + ([Sep] + x);
    assert Joined([r, [Sep] + x]) == text by {
      JoinedOfTwo(r, [Sep] + x);
    }
    assert !IsAbsolute(text) && !HasTrailingSep(text) by {
      assert text[0] == r[0] && r[0] in r;
      assert text[|text| - 1] == x[|x| - 1] && x[|x| - 1] in x;
    }
    SplitRootAndRooted(r, x);
    JoinThroughPieces([r, [Sep] + x], text, [r, "", x]);
    assert ResolveFrom([], [r, "", x], true) == [r, x] by {
      ResolveSteps(r, "", x, "");
    }
    assert JoinPieces([r, x]) == r + [Sep] + x by {
      assert [r, x][..1] == [r];
    }
  }

  lemma SplitRootAndRooted(r: string, x: string)
    requires IsName(r) && IsName(x)
    ensures Split(r + [Sep] + ([Sep] + x)) == [r, "", x]
  {
    SplitOfRooted(x);
    SplitOfPiece(x);
    SplitOfPiece(r);
    SplitAtSep(r, [Sep] + x);
  }

  /** Relative resolution of three and of four pieces, one at a time. */
  lemma ResolveSteps(a: string, b: string, c: string, d: string)
    ensures ResolveFrom([], [a, b, c], true) == Step(Step(Step([], a, true), b, true), c, true)
    ensures ResolveFrom([], [a, b, c, d], true) == Step(ResolveFrom([], [a, b, c], true), d, true)
  {
    assert [a, b, c, d][..3] == [a, b, c];
    assert [a, b, c][..2] == [a, b];
    assert [a, b][..1] == [a];
    assert [a][..0] == [];
    assert ResolveFrom([], [a], true) == Step([], a, true);
    assert ResolveFrom([], [a, b], true) == Step(ResolveFrom([], [a], true), b, true);
  }

  /** `path.join(r, "/..", x)` is "x": the ".." cancels `r`. */
  lemma JoinFlatRootedParent(r: string, x: string)
    requires IsName(r) && IsName(x)
    ensures Join([r, "/..", x]) == x
  {
    var text := r + [Sep] + ("/.." + [Sep] + x);
    assert Joined([r, "/..", x]) == text by {
      JoinedOfThree(r, "/..", x);
    }
    assert !IsAbsolute(text) && !HasTrailingSep(text) by {
      assert text[0] == r[0] && r[0] in r;
      assert text[|text| - 1] == x[|x| - 1] && x[|x| - 1] in x;
    }
    SplitFlatRootedParent(r, x);
    JoinThroughPieces([r, "/..", x], text, [r, "", "..", x]);
    assert ResolveFrom([], [r, "", "..", x], true) == [x] by {
      ResolveSteps(r, "", "..", x);
      assert Step([], r, true) == [r];
      assert [r][..0] == [];
    }
    assert JoinPieces([x]) == x;
  }

  lemma SplitFlatRootedParent(r: string, x: string)
    requires IsName(r) && IsName(x)
    ensures Split(r + [Sep] + ("/.." + [Sep] + x)) == [r, "", "..", x]
  {
    SplitRootedParent(x);
    SplitOfPiece(r);
    SplitAtSep(r, "/.." + [Sep] + x);
  }

  /** With plain inputs nothing is normalised away: the directory is the
      root, then the libraries folder, then the basename of the project. */
  lemma ProjectDirOfPlainInputs(context: ExecutorContext, name: string)
    requires context.projectName == Some(name)
    requires IsPlain(context.root)
    requires IsName(GetNxLibFolder(context.nxJsonConfiguration))
    requires IsName(Basename(name))
    ensures GetProjectDir(context)
         == Some(context.root + [Sep] + GetNxLibFolder(context.nxJsonConfiguration) + [Sep] + Basename(name))
  {
    PlainProjectDirPieces(context.root, GetNxLibFolder(context.nxJsonConfiguration), Basename(name));
    ProjectDirUnfolds(context, name);
  }

  /** So the last piece of the directory is the basename of the project and
      the piece before it is the libraries folder. */
  lemma ProjectDirPiecesOfPlainInputs(context: ExecutorContext, name: string)
    requires context.projectName == Some(name)
    requires IsPlain(context.root)
    requires IsName(GetNxLibFolder(context.nxJsonConfiguration))
    requires IsName(Basename(name))
    ensures GetProjectDir(context).Some?
    ensures var pieces := Split(GetProjectDir(context).value);
            |pieces| >= 2
            && pieces[|pieces| - 1] == Basename(name)
            && pieces[|pieces| - 2] == GetNxLibFolder(context.nxJsonConfiguration)
            && pieces[..|pieces| - 2] == Split(context.root)
  {
    var root, lib, base := context.root, GetNxLibFolder(context.nxJsonConfiguration), Basename(name);
    PlainProjectDirPieces(root, lib, base);
    ProjectDirUnfolds(context, name);
    var pieces := Split(root) + [lib, base];
    assert pieces[..|pieces| - 2] == Split(root);
  }

  /** The two joins on plain inputs, and the pieces of what they give. */
  lemma PlainProjectDirPieces(root: string, lib: string, base: string)
    requires IsPlain(root) && IsName(lib) && IsName(base)
    ensures Join([root, Join([lib, base])]) == root + [Sep] + lib + [Sep] + base
    ensures Split(root + [Sep] + lib + [Sep] + base) == Split(root) + [lib, base]
  {
    var inner := lib + [Sep] + base;
    var whole := root + [Sep] + inner;
    assert whole == root + [Sep] + lib + [Sep] + base;
    assert Join([lib, base]) == inner && IsPlain(inner) && Split(inner) == [lib, base] by {
      JoinOfNames(lib, base);
    }
    assert Join([root, inner]) == whole && Split(whole) == Split(root) + [lib, base] by {
      JoinPlain(root, inner);
    }
  }

  /** `path.join(lib, base)` of two names is "lib/base", a plain path of two pieces. */
  lemma JoinOfNames(lib: string, base: string)
    requires IsName(lib) && IsName(base)
    ensures Join([lib, base]) == lib + [Sep] + base
    ensures IsPlain(lib + [Sep] + base) && Split(lib + [Sep] + base) == [lib, base]
  {
    PlainName(lib);
    PlainName(base);
    JoinPlain(lib, base);
  }

  /** The directory of a named project, written out. */
  lemma ProjectDirUnfolds(context: ExecutorContext, name: string)
    requires context.projectName == Some(name)
    ensures GetProjectDir(context)
         == Some(Join([context.root, Join([GetNxLibFolder(context.nxJsonConfiguration), Basename(name)])]))
  {
  }

  /** Only the basename of the project name matters. */
  lemma ProjectDirUsesOnlyBasename(context: ExecutorContext, name: string)
    requires context.projectName == Some(name)
    ensures GetProjectDir(context) == GetProjectDir(context.(projectName := Some(Basename(name))))
  {
    BasenameIdempotent(name);
  }

  /** A scope such as "@grammarly" in "@grammarly/foo" is stripped: the
      scoped and the bare name resolve to the same directory. */
  lemma ScopeIsStripped(context: ExecutorContext, scope: string, name: string)
    requires name != "" && Sep !in name
    ensures GetProjectDir(context.(projectName := Some(scope + [Sep] + name)))
         == GetProjectDir(context.(projectName := Some(name)))
  {
    BasenameAfterSep(scope, name);
    BasenameOfPiece(name);
  }

  /** Whatever the root and the configuration, no project name means no directory. */
  lemma NoProjectNameNoDir(context: ExecutorContext)
    requires context.projectName.None?
    ensures GetProjectDir(context) == None
  {
  }

  /** "foo" under root "/r" with an empty nx.json lives in "/r/libs/foo". */
  lemma DefaultLibsExample(context: ExecutorContext)
    requires context == ExecutorContext(Some("foo"), "/r", Some(EmptyNxJson))
    ensures GetProjectDir(context) == Some("/r/libs/foo")
  {
    assert context.root == [Sep] + "r";
    assert GetNxLibFolder(context.nxJsonConfiguration) == "libs";
    assert Basename("foo") == "foo" by {
      BasenameOfPiece("foo");
    }
    ExampleNames();
    UnderRootedRoot(context, "r", "libs", "foo");
    ExampleDirs();
  }

  /** "@scope/foo" under root "/r" with libsDir "packages" lives in "/r/packages/foo". */
  lemma ScopedPackagesExample(context: ExecutorContext)
    requires context == ExecutorContext(Some("@scope/foo"), "/r",
      Some(NxJsonConfiguration(Some(WorkspaceLayout(None, Some("packages"))))))
    ensures GetProjectDir(context) == Some("/r/packages/foo")
  {
    assert context.root == [Sep] + "r";
    assert GetNxLibFolder(context.nxJsonConfiguration) == "packages";
    assert Basename("@scope/foo") == "foo" by {
      assert "@scope/foo" == "@scope" + [Sep] + "foo";
      BasenameAfterSep("@scope", "foo");
    }
    ExampleNames();
    UnderRootedRoot(context, "r", "packages", "foo");
    ExampleDirs();
  }

  lemma ExampleDirs()
    ensures [Sep] + "r" + [Sep] + "libs" + [Sep] + "foo" == "/r/libs/foo"
    ensures [Sep] + "r" + [Sep] + "packages" + [Sep] + "foo" == "/r/packages/foo"
  {
  }

  lemma ExampleNames()
    ensures IsName("r") && IsName("libs") && IsName("packages") && IsName("foo")
  {
  }

  /** A named project under a one-level absolute root "/r". */
  lemma UnderRootedRoot(context: ExecutorContext, r: string, lib: string, base: string)
    requires context.projectName.Some? && context.root == [Sep] + r
    requires GetNxLibFolder(context.nxJsonConfiguration) == lib
    requires Basename(context.projectName.value) == base
    requires IsName(r) && IsName(lib) && IsName(base)
    ensures GetProjectDir(context) == Some([Sep] + r + [Sep] + lib + [Sep] + base)
  {
    assert IsPlain([Sep] + r) by {
      SplitOfRooted(r);
      SplitOfPiece(r);
    }
    ProjectDirOfPlainInputs(context, context.projectName.value);
  }
}
