/** UIContextEditor's script update (Editor/UIContextEditor.cs, lines 259-342): derive the
    prefab path, choose the script through the cache or a scan, and rewrite the marker region. */
module ContextEditor {
  import opened Wrappers
  import opened Strings
  import opened Paths
  import opened Errors
  import opened Contexts
  import opened EditorConfig
  import opened Regions
  import opened Printer

  /** Where the editor looks: prefab roots and script roots, in the order it consults them. */
  datatype Config = Config(prefabDirs: seq<string>, codeDirs: seq<string>)

  /** The roots UIEditorConfig declares. */
  const Configured: Config := Config(UIPrefabDirectory, UICodeDirectory)

  /** The file system: file contents by path, and for each directory the files beneath it at
      any depth, in the order Directory.GetFiles enumerates them. */
  datatype Workspace = Workspace(files: map<string, string>, listings: map<string, seq<string>>)

  /** What the update reads and writes: the inspected context, the cache file (`None` when it
      does not exist) and the file system. */
  datatype Editor = Editor(ctx: UIContext, cache: Option<CacheDoc>, ws: Workspace)

  // ---------------------------------------------------------------------------------------
  // Prefab path (lines 266-277)

  /** The index of the first directory in `dirs`, from `from` on, that `path` starts with. */
  function FirstPrefixFrom(dirs: seq<string>, path: string, from: nat): (r: Option<nat>)
    requires from <= |dirs|
    ensures r.Some? ==> from <= r.value < |dirs| && StartsWith(path, dirs[r.value])
    ensures r.Some? ==> forall j :: from <= j < r.value ==> !StartsWith(path, dirs[j])
    ensures r.None? ==> forall j :: from <= j < |dirs| ==> !StartsWith(path, dirs[j])
    decreases |dirs| - from
  {
    if from == |dirs| then None
    else if StartsWith(path, dirs[from]) then Some(from)
    else FirstPrefixFrom(dirs, path, from + 1)
  }

  /** The prefab path of `assetPath`: the first matching prefab directory and the asset's
      extension, each removed with String.Replace (every occurrence, not just the prefix and
      the suffix). An asset under no directory fails the assertion; an empty directory or an
      asset without extension makes Replace throw. */
  function DerivePrefabPath(dirs: seq<string>, assetPath: string): (r: Result<string, Error>)
    ensures r == Failure(NotUnderPrefabDirectory(assetPath)) <==> forall j :: 0 <= j < |dirs| ==> !StartsWith(assetPath, dirs[j])
    ensures r.Failure? ==> r.error == NotUnderPrefabDirectory(assetPath) || r.error == EmptyReplacePattern
  {
    match FirstPrefixFrom(dirs, assetPath, 0)
    case None => Failure(NotUnderPrefabDirectory(assetPath))
    case Some(i) =>
      var ext := Extension(assetPath);
      if |dirs[i]| == 0 || |ext| == 0 then Failure(EmptyReplacePattern)
      else Success(ReplaceAll(ReplaceAll(assetPath, dirs[i], ""), ext, ""))
  }

  /** For an asset `dir + stem + "." + e` under the first matching directory `dirs[i]`, the
      prefab path is `stem`, provided the directory occurs nowhere else in the asset path and
      the stem has no dot of its own. */
  lemma DerivePrefabPathStrips(dirs: seq<string>, i: nat, stem: string, e: string)
    requires i < |dirs| && |dirs[i]| > 0
    requires forall j :: 0 <= j < i ==> !StartsWith(dirs[i] + stem + "." + e, dirs[j])
    requires forall k: nat :: k != 0 ==> !OccursAt(dirs[i] + stem + "." + e, k, dirs[i])
    requires '.' !in stem && e != [] && forall c :: c in e ==> c != '.' && !IsSeparator(c)
    ensures DerivePrefabPath(dirs, dirs[i] + stem + "." + e) == Success(stem)
  {
    var d := dirs[i];
    var asset := d + stem + "." + e;
    assert asset == d + (stem + ("." + e));
    assert FirstPrefixFrom(dirs, asset, 0) == Some(i) by {
      assert asset[..|d|] == d;
    }
    assert Extension(asset) == "." + e by {
      ExtensionOfStem(d + stem, e);
    }
    assert ReplaceAll(asset, d, "") == stem + ("." + e) by {
      assert OccursAt(asset, 0, d) by {
        assert asset[..|d|] == d;
      }
      ReplaceAllUnique(asset, d, "", 0);
      assert asset[..0] + "" + asset[|d|..] == stem + ("." + e);
    }
    ReplaceAllStripsSuffix(stem, "." + e);
    DeriveFromParts(dirs, asset, i, stem + ("." + e), "." + e, stem);
  }

  /** DerivePrefabPath read off its stages. */
  lemma DeriveFromParts(dirs: seq<string>, asset: string, i: nat, mid: string, ext: string, result: string)
    requires i < |dirs| && |dirs[i]| > 0 && |ext| > 0
    requires FirstPrefixFrom(dirs, asset, 0) == Some(i) && Extension(asset) == ext
    requires ReplaceAll(asset, dirs[i], "") == mid && ReplaceAll(mid, ext, "") == result
    ensures DerivePrefabPath(dirs, asset) == Success(result)
  {
  }

  /** The configured roots are consulted in declaration order, and an asset under the second
      root, "Assets/Resources/", is not taken for the first, "Assets/res/ui/prefab/": the two
      differ in their eighth character, so the first test fails and the second root derives
      the path. */
  lemma ConfiguredPrefabOrder(stem: string, e: string)
    requires '.' !in stem && e != [] && forall c :: c in e ==> c != '.' && !IsSeparator(c)
    requires forall k: nat :: k != 0 ==> !OccursAt(UIPrefabDirectory[1] + stem + "." + e, k, UIPrefabDirectory[1])
    ensures !StartsWith(UIPrefabDirectory[1] + stem + "." + e, UIPrefabDirectory[0])
    ensures DerivePrefabPath(Configured.prefabDirs, UIPrefabDirectory[1] + stem + "." + e) == Success(stem)
  {
    var asset := UIPrefabDirectory[1] + stem + "." + e;
    assert asset[7] == 'R';
    assert UIPrefabDirectory[0][7] == 'r';
    DerivePrefabPathStrips(Configured.prefabDirs, 1, stem, e);
  }

  // ---------------------------------------------------------------------------------------
  // Script discovery (lines 310-342)

  /** The filter of line 318: Path.GetExtension is ".ts". */
  predicate IsTsFile(path: string) {
    Extension(path) == TsExtension
  }

  /** A script that the scan accepts: a ".ts" file whose text contains the hash. */
  predicate Holds(path: string, hash: string, files: map<string, string>) {
    IsTsFile(path) && path in files && Contains(files[path], hash)
  }

  /** The files of one directory from index `i` on; a listed file that cannot be read fails. */
  function ScanFiles(paths: seq<string>, i: nat, hash: string, files: map<string, string>): (r: Result<Option<string>, Error>)
    requires i <= |paths|
    ensures r.Success? && r.value.Some? ==> exists j :: i <= j < |paths| && paths[j] == r.value.value && Holds(paths[j], hash, files)
    ensures r.Failure? ==> r.error.FileNotFound? && r.error.path !in files
    decreases |paths| - i
  {
    if i == |paths| then Success(None)
    else if !IsTsFile(paths[i]) then ScanFiles(paths, i + 1, hash, files)
    else if paths[i] !in files then Failure(FileNotFound(paths[i]))
    else if Contains(files[paths[i]], hash) then Success(Some(paths[i]))
    else ScanFiles(paths, i + 1, hash, files)
  }

  /** The code directories from index `i` on, each scanned completely before the next; a
      directory that does not exist fails when the scan reaches it. */
  function ScanDirs(dirs: seq<string>, i: nat, hash: string, ws: Workspace): (r: Result<Option<string>, Error>)
    requires i <= |dirs|
    ensures r.Success? && r.value.Some? ==> Holds(r.value.value, hash, ws.files)
    ensures r.Failure? ==>
      || (r.error.DirectoryNotFound? && r.error.directory in dirs && r.error.directory !in ws.listings)
      || (r.error.FileNotFound? && r.error.path !in ws.files)
    decreases |dirs| - i
  {
    if i == |dirs| then Success(None)
    else if dirs[i] !in ws.listings then Failure(DirectoryNotFound(dirs[i]))
    else match ScanFiles(ws.listings[dirs[i]], 0, hash, ws.files)
      case Failure(e) => Failure(e)
      case Success(Some(p)) => Success(Some(p))
      case Success(None) => ScanDirs(dirs, i + 1, hash, ws)
  }

  function Discover(cfg: Config, hash: string, ws: Workspace): (r: Result<Option<string>, Error>)
    ensures r.Success? && r.value.Some? ==> Holds(r.value.value, hash, ws.files)
  {
    ScanDirs(cfg.codeDirs, 0, hash, ws)
  }

  /** The reference reading of the scan: every file under the code directories, in order. */
  ghost predicate Listed(dirs: seq<string>, ws: Workspace) {
    forall i :: 0 <= i < |dirs| ==> dirs[i] in ws.listings
  }

  ghost function Listing(dirs: seq<string>, ws: Workspace): seq<string>
    requires Listed(dirs, ws)
  {
    if dirs == [] then [] else ws.listings[dirs[0]] + Listing(dirs[1..], ws)
  }

  /** The scan's acceptance test as a value. */
  function Accepts(hash: string, files: map<string, string>): string -> bool {
    p => Holds(p, hash, files)
  }

  /** The first entry of a list that `accept` admits, stated declaratively. */
  function FirstAccepted(paths: seq<string>, accept: string -> bool): (r: Option<nat>)
    ensures r.Some? ==> r.value < |paths| && accept(paths[r.value])
    ensures r.Some? ==> forall j :: 0 <= j < r.value ==> !accept(paths[j])
    ensures r.None? ==> forall j :: 0 <= j < |paths| ==> !accept(paths[j])
  {
    if paths == [] then None
    else if accept(paths[0]) then Some(0)
    else match FirstAccepted(paths[1..], accept)
      case None => None
      case Some(j) => Some(j + 1)
  }

  ghost predicate Readable(paths: seq<string>, files: map<string, string>) {
    forall j :: 0 <= j < |paths| && IsTsFile(paths[j]) ==> paths[j] in files
  }

  lemma {:induction false} ScanFilesIsFirstAccepted(paths: seq<string>, i: nat, hash: string, files: map<string, string>)
    requires i <= |paths| && Readable(paths, files)
    ensures ScanFiles(paths, i, hash, files) == Success(
      match FirstAccepted(paths[i..], Accepts(hash, files)) case None => None case Some(j) => Some(paths[i + j]))
    decreases |paths| - i
  {
    if i < |paths| {
      ScanFilesIsFirstAccepted(paths, i + 1, hash, files);
      assert paths[i..][1..] == paths[i + 1..];
    }
  }

  lemma {:induction false} ScanDirsIsFirstAccepted(dirs: seq<string>, ws: Workspace, hash: string)
    requires Listed(dirs, ws) && Readable(Listing(dirs, ws), ws.files)
    ensures ScanDirs(dirs, 0, hash, ws) == Success(
      match FirstAccepted(Listing(dirs, ws), Accepts(hash, ws.files)) case None => None case Some(j) => Some(Listing(dirs, ws)[j]))
    decreases |dirs|
  {
    if dirs != [] {
      var here := ws.listings[dirs[0]];
      var rest := Listing(dirs[1..], ws);
      assert Listing(dirs, ws) == here + rest;
      ReadableSplit(here, rest, ws.files);
      ScanFilesIsFirstAccepted(here, 0, hash, ws.files);
      assert here[0..] == here;
      ScanDirsIsFirstAccepted(dirs[1..], ws, hash);
      ScanDirsShift(dirs, ws, hash);
      FirstAcceptedConcat(here, rest, Accepts(hash, ws.files));
    }
  }

  lemma ReadableSplit(a: seq<string>, b: seq<string>, files: map<string, string>)
    requires Readable(a + b, files)
    ensures Readable(a, files) && Readable(b, files)
  {
    forall j | 0 <= j < |a| && IsTsFile(a[j]) ensures a[j] in files {
      assert (a + b)[j] == a[j];
    }
    forall j | 0 <= j < |b| && IsTsFile(b[j]) ensures b[j] in files {
      assert (a + b)[|a| + j] == b[j];
    }
  }

  /** Scanning from the second directory is scanning the directories after the first. */
  lemma {:induction false} ScanDirsShift(dirs: seq<string>, ws: Workspace, hash: string)
    requires |dirs| > 0
    ensures ScanDirs(dirs, 1, hash, ws) == ScanDirs(dirs[1..], 0, hash, ws)
  {
    ScanDirsFrom(dirs, 1, hash, ws);
  }

  lemma {:induction false} ScanDirsFrom(dirs: seq<string>, i: nat, hash: string, ws: Workspace)
    requires 1 <= i <= |dirs|
    ensures ScanDirs(dirs, i, hash, ws) == ScanDirs(dirs[1..], i - 1, hash, ws)
    decreases |dirs| - i
  {
    if i < |dirs| {
      ScanDirsFrom(dirs, i + 1, hash, ws);
      assert dirs[1..][i - 1] == dirs[i];
    }
  }

  /** The first accepted entry of two lists in a row. */
  lemma FirstAcceptedConcat(a: seq<string>, b: seq<string>, accept: string -> bool)
    ensures FirstAccepted(a + b, accept) ==
      match FirstAccepted(a, accept)
      case Some(j) => Some(j)
      case None => match FirstAccepted(b, accept) case None => None case Some(j) => Some(|a| + j)
  {
    var ab := a + b;
    var fa := FirstAccepted(a, accept);
    var fb := FirstAccepted(b, accept);
    if fa.Some? {
      assert forall k :: 0 <= k <= fa.value ==> ab[k] == a[k];
      FirstAcceptedAt(ab, accept, fa.value);
    } else if fb.Some? {
      assert forall k :: |a| <= k < |ab| ==> ab[k] == b[k - |a|];
      assert forall k :: 0 <= k < |a| ==> ab[k] == a[k];
      FirstAcceptedAt(ab, accept, |a| + fb.value);
    } else {
      assert forall k :: 0 <= k < |ab| ==> ab[k] == if k < |a| then a[k] else b[k - |a|];
    }
  }

  /** Discovery finds the first ".ts" file, over all code directories in order, whose text
      contains the hash; it finds none exactly when no listed script contains it. */
  lemma DiscoverFindsFirst(cfg: Config, hash: string, ws: Workspace)
    requires Listed(cfg.codeDirs, ws) && Readable(Listing(cfg.codeDirs, ws), ws.files)
    ensures var all := Listing(cfg.codeDirs, ws);
      && (Discover(cfg, hash, ws) == Success(None) <==> forall j :: 0 <= j < |all| ==> !Holds(all[j], hash, ws.files))
      && forall j :: 0 <= j < |all| && Holds(all[j], hash, ws.files) && (forall k :: 0 <= k < j ==> !Holds(all[k], hash, ws.files))
           ==> Discover(cfg, hash, ws) == Success(Some(all[j]))
  {
    var all := Listing(cfg.codeDirs, ws);
    var accept := Accepts(hash, ws.files);
    ScanDirsIsFirstAccepted(cfg.codeDirs, ws, hash);
    assert forall j :: 0 <= j < |all| ==> accept(all[j]) == Holds(all[j], hash, ws.files);
    forall j | 0 <= j < |all| && Holds(all[j], hash, ws.files) && (forall k :: 0 <= k < j ==> !Holds(all[k], hash, ws.files))
      ensures Discover(cfg, hash, ws) == Success(Some(all[j]))
    {
      FirstAcceptedAt(all, accept, j);
    }
  }

  /** An accepted entry with none accepted before it is the first accepted one. */
  lemma FirstAcceptedAt(paths: seq<string>, accept: string -> bool, j: nat)
    requires j < |paths| && accept(paths[j]) && forall k :: 0 <= k < j ==> !accept(paths[k])
    ensures FirstAccepted(paths, accept) == Some(j)
  {
    var r := FirstAccepted(paths, accept);
    assert r.Some?;
    assert r.value == j;
  }

  /** Lines 329-336: the script becomes the context's bind file and is recorded in the cache. */
  function TryFindScript(cfg: Config, e: Editor): (r: (Editor, Result<Option<string>, Error>))
    ensures r.0.ws == e.ws && r.0.ctx.nodes == e.ctx.nodes && r.0.ctx.bindHash == e.ctx.bindHash
    ensures r.0.ctx.prefabPath == e.ctx.prefabPath
    ensures r.1.Success? && r.1.value.Some? ==> r.1 == Discover(cfg, e.ctx.bindHash, e.ws) && r.0.ctx.bindFile == r.1.value.value
    ensures r.1 == Success(None) <==> Discover(cfg, e.ctx.bindHash, e.ws) == Success(None)
    ensures r.1 == Success(None) ==> r.0 == e
    ensures r.1.Success? && r.1.value.Some? ==>
      && ReadBindingCache(e.cache).1.Success?
      && ReadBindingCache(r.0.cache).1 == Success(ReadBindingCache(e.cache).1.value[e.ctx.bindHash := r.1.value.value])
  {
    match Discover(cfg, e.ctx.bindHash, e.ws)
    case Failure(err) => (e, Failure(err))
    case Success(None) => (e, Success(None))
    case Success(Some(p)) =>
      var e1 := e.(ctx := e.ctx.(bindFile := p));
      var (doc, res) := RecordBinding(e1.cache, e1.ctx.bindHash, p);
      (e1.(cache := Some(doc)), if res.Failure? then Failure(res.error) else Success(Some(p)))
  }

  /** Lines 279-287: the cached script when the hash is a key and its file exists, a scan
      otherwise. */
  function SelectScript(cfg: Config, e: Editor): (r: (Editor, Result<Option<string>, Error>))
    ensures r.0.ws == e.ws && r.0.ctx.nodes == e.ctx.nodes && r.0.ctx.bindHash == e.ctx.bindHash
    ensures r.0.ctx.prefabPath == e.ctx.prefabPath
    ensures r.1.Success? && r.1.value.Some? ==> r.1.value.value in e.ws.files
    ensures r.1.Success? && r.1.value.Some? ==>
      && ReadBindingCache(r.0.cache).1.Success?
      && e.ctx.bindHash in ReadBindingCache(r.0.cache).1.value
      && ReadBindingCache(r.0.cache).1.value[e.ctx.bindHash] == r.1.value.value
  {
    var (doc, m) := ReadBindingCache(e.cache);
    var e1 := e.(cache := Some(doc));
    match m
    case Failure(err) => (e1, Failure(err))
    case Success(m) =>
      if e.ctx.bindHash in m && m[e.ctx.bindHash] in e.ws.files then (e1, Success(Some(m[e.ctx.bindHash])))
      else TryFindScript(cfg, e1)
  }

  /** A usable cache entry is taken as it is: no scan, and neither the bind file nor the cache
      changes. Without one, the scan decides. */
  lemma CacheChoice(cfg: Config, e: Editor, m: map<string, string>)
    requires ReadBindingCache(e.cache).1 == Success(m)
    ensures var hash := e.ctx.bindHash;
      var r := SelectScript(cfg, e);
      && (hash in m && m[hash] in e.ws.files ==>
            r == (e.(cache := Some(EnsureCacheFile(e.cache))), Success(Some(m[hash]))))
      && (!(hash in m && m[hash] in e.ws.files) ==>
            r == TryFindScript(cfg, e.(cache := Some(EnsureCacheFile(e.cache)))))
  {
  }

  // ---------------------------------------------------------------------------------------
  // The update (lines 259-308)

  /** Lines 261-287: the prefab path is stored, then a script is chosen. */
  function Prepare(cfg: Config, assetPath: string, e: Editor): (r: (Editor, Result<string, Error>))
    ensures r.0.ws == e.ws && r.0.ctx.nodes == e.ctx.nodes && r.0.ctx.bindHash == e.ctx.bindHash
    ensures r.1.Success? ==> r.1.value in e.ws.files
    ensures r.1.Success? ==> DerivePrefabPath(cfg.prefabDirs, assetPath) == Success(r.0.ctx.prefabPath)
  {
    match DerivePrefabPath(cfg.prefabDirs, assetPath)
    case Failure(err) => (e, Failure(err))
    case Success(prefab) =>
      var (e1, sel) := SelectScript(cfg, e.(ctx := e.ctx.(prefabPath := prefab)));
      match sel
      case Failure(err) => (e1, Failure(err))
      case Success(None) => (e1, Failure(ScriptNotFound))
      case Success(Some(p)) => (e1, Success(p))
  }

  /** Lines 289-303 on the chosen script. Without a region the scan runs again, but the failed
      match leaves an empty `oldCode`, and Replace with an empty pattern throws after the code
      has been generated: nothing is written. With a region, its text is replaced. */
  function Rewrite(cfg: Config, e: Editor, path: string, eol: LineEnding): (r: (Editor, Result<string, Error>))
    requires path in e.ws.files
    ensures r.1.Failure? ==> r.0.ws == e.ws
    ensures r.1.Success? ==> r.1 == Success(path) && r.0.ctx == e.ctx && r.0.cache == e.cache
    ensures r.1.Success? ==> FindRegion(e.ws.files[path], e.ctx.bindHash).Some?
    ensures r.1.Success? ==>
      && path in r.0.ws.files && r.0.ws.listings == e.ws.listings
      && r.0.ws.files == e.ws.files[path := r.0.ws.files[path]]
  {
    var text := e.ws.files[path];
    match FindRegion(text, e.ctx.bindHash)
    case None =>
      var (e1, again) := TryFindScript(cfg, e);
      if again.Failure? then (e1, Failure(again.error))
      else if again.value.None? then (e1, Failure(ScriptNotFound))
      else (match GenerateCode(e1.ctx, e1.ws.files, eol)
        case Failure(err) => (e1, Failure(err))
        case Success(_) => (e1, Failure(EmptyReplacePattern)))
    case Some(reg) =>
      match GenerateCode(e.ctx, e.ws.files, eol)
      case Failure(err) => (e, Failure(err))
      case Success(code) =>
        (e.(ws := e.ws.(files := e.ws.files[path := ReplaceAll(text, text[reg.start..reg.end], code)])), Success(path))
  }

  /** UpdateScriptCode: the path of the script written, or the failure that stopped it. */
  function UpdateScriptCode(cfg: Config, assetPath: string, e: Editor, eol: LineEnding): (r: (Editor, Result<string, Error>))
    ensures r.1.Failure? ==> r.0.ws == e.ws
    ensures r.1.Success? ==>
      && r.1.value in e.ws.files && r.1.value in r.0.ws.files && r.0.ws.listings == e.ws.listings
      && r.0.ws.files == e.ws.files[r.1.value := r.0.ws.files[r.1.value]]
    ensures r.0.ctx.nodes == e.ctx.nodes && r.0.ctx.bindHash == e.ctx.bindHash
  {
    match Prepare(cfg, assetPath, e)
    case (e1, Failure(err)) => (e1, Failure(err))
    case (e1, Success(p)) => Rewrite(cfg, e1, p, eol)
  }

  /** A successful update is a successful preparation followed by the rewrite of its script. */
  lemma UpdateStages(cfg: Config, assetPath: string, e: Editor, eol: LineEnding)
    requires UpdateScriptCode(cfg, assetPath, e, eol).1.Success?
    ensures var (e1, prep) := Prepare(cfg, assetPath, e);
      && prep.Success?
      && UpdateScriptCode(cfg, assetPath, e, eol) == Rewrite(cfg, e1, prep.value, eol)
  {
  }

  /** A rewrite that succeeds replaces the found region of the script by the generated block
      and keeps everything before and after it. */
  lemma RewriteSplices(cfg: Config, e: Editor, path: string, eol: LineEnding)
    requires path in e.ws.files && Rewrite(cfg, e, path, eol).1.Success?
    ensures var text := e.ws.files[path];
      && FindRegion(text, e.ctx.bindHash).Some?
      && GenerateCode(e.ctx, e.ws.files, eol).Success?
      && var reg := FindRegion(text, e.ctx.bindHash).value;
         var code := GenerateCode(e.ctx, e.ws.files, eol).value;
         && Rewrite(cfg, e, path, eol).0 == e.(ws := e.ws.(files := e.ws.files[path := Splice(text, reg, code)]))
         && Splice(text, reg, code)[..reg.start] == text[..reg.start]
         && Splice(text, reg, code)[reg.start + |code|..] == text[reg.end..]
  {
    var text := e.ws.files[path];
    var reg := FindRegion(text, e.ctx.bindHash).value;
    var code := GenerateCode(e.ctx, e.ws.files, eol).value;
    ReplaceMatchIsSplice(text, e.ctx.bindHash, code);
    SpliceParts(text, reg, code);
  }

  /** An update that succeeds writes exactly one file: the chosen script, where the found
      region is replaced by the generated block and everything before and after it is kept. */
  lemma UpdateWritesSplice(cfg: Config, assetPath: string, e: Editor, eol: LineEnding)
    requires UpdateScriptCode(cfg, assetPath, e, eol).1.Success?
    ensures var (e', r) := UpdateScriptCode(cfg, assetPath, e, eol);
      var p := r.value;
      var text := e.ws.files[p];
      && DerivePrefabPath(cfg.prefabDirs, assetPath) == Success(e'.ctx.prefabPath)
      && FindRegion(text, e.ctx.bindHash).Some?
      && GenerateCode(e'.ctx, e.ws.files, eol).Success?
      && var reg := FindRegion(text, e.ctx.bindHash).value;
         var code := GenerateCode(e'.ctx, e.ws.files, eol).value;
         && e'.ws.files == e.ws.files[p := Splice(text, reg, code)]
         && e'.ws.files[p][..reg.start] == text[..reg.start]
         && e'.ws.files[p][reg.start + |code|..] == text[reg.end..]
  {
    UpdateStages(cfg, assetPath, e, eol);
    var (e1, prep) := Prepare(cfg, assetPath, e);
    RewriteSplices(cfg, e1, prep.value, eol);
  }

  /** A script without a region for the hash is never written: the update fails, and no
      script changes. What the failed update leaves behind is the rescan's work: the bind file
      it found and the cache entry it recorded. When the rescan finds a script and the code
      generates, the failure is the empty-pattern `Replace`. */
  lemma RegionMissWritesNothing(cfg: Config, assetPath: string, e: Editor, eol: LineEnding)
    requires Prepare(cfg, assetPath, e).1.Success?
    requires var p := Prepare(cfg, assetPath, e).1.value;
      FindRegion(e.ws.files[p], e.ctx.bindHash).None?
    ensures UpdateScriptCode(cfg, assetPath, e, eol).1.Failure?
    ensures UpdateScriptCode(cfg, assetPath, e, eol).0.ws == e.ws
    ensures var (e2, again) := TryFindScript(cfg, Prepare(cfg, assetPath, e).0);
      && UpdateScriptCode(cfg, assetPath, e, eol).0 == e2
      && (again.Success? && again.value.Some? && GenerateCode(e2.ctx, e2.ws.files, eol).Success? ==>
            UpdateScriptCode(cfg, assetPath, e, eol).1 == Failure(EmptyReplacePattern))
  {
  }

  /** No node is bound to a context whose script is `path`, so rewriting `path` cannot change
      the generated type names. */
  predicate NoNodeReads(ctx: UIContext, path: string) {
    forall k :: 0 <= k < |ctx.nodes| && ctx.nodes[k].component.Some? ==>
      ctx.nodes[k].component.value.contextBindFile != Some(path)
  }

  /** After a successful preparation the cache maps the hash to the chosen script, whether it
      came from the cache or from the scan. */
  lemma PrepareLeavesCacheEntry(cfg: Config, assetPath: string, e: Editor)
    requires Prepare(cfg, assetPath, e).1.Success?
    ensures var (e', r) := Prepare(cfg, assetPath, e);
      && e'.cache.Some?
      && ReadBindingCache(e'.cache).0 == e'.cache.value
      && ReadBindingCache(e'.cache).1.Success?
      && e.ctx.bindHash in ReadBindingCache(e'.cache).1.value
      && ReadBindingCache(e'.cache).1.value[e.ctx.bindHash] == r.value
  {
    var e0 := e.(ctx := e.ctx.(prefabPath := DerivePrefabPath(cfg.prefabDirs, assetPath).value));
    var (doc, m) := ReadBindingCache(e0.cache);
    var hash := e.ctx.bindHash;
    if !(hash in m.value && m.value[hash] in e0.ws.files) {
      var e1 := e0.(cache := Some(doc));
      var p := Discover(cfg, hash, e1.ws).value.value;
      RecordThenLookup(e1.cache, hash, p, m.value);
    }
  }

  /** Preparing again after a successful update leaves the editor as it is and picks the
      same script, now through the cache. */
  lemma PrepareAgain(cfg: Config, assetPath: string, e: Editor, eol: LineEnding)
    requires UpdateScriptCode(cfg, assetPath, e, eol).1.Success?
    ensures var (e', r) := UpdateScriptCode(cfg, assetPath, e, eol);
      Prepare(cfg, assetPath, e') == (e', r)
  {
    UpdateStages(cfg, assetPath, e, eol);
    var (e1, prep) := Prepare(cfg, assetPath, e);
    PrepareLeavesCacheEntry(cfg, assetPath, e);
    var (e', r) := UpdateScriptCode(cfg, assetPath, e, eol);
    assert e'.cache == e1.cache && e'.ctx == e1.ctx;
    var m := ReadBindingCache(e'.cache).1.value;
    assert e'.ctx.(prefabPath := DerivePrefabPath(cfg.prefabDirs, assetPath).value) == e'.ctx;
    assert EnsureCacheFile(e'.cache) == e'.cache.value;
    assert m[e.ctx.bindHash] in e'.ws.files;
    CacheChoice(cfg, e', m);
  }

  /** A rewrite whose script has the region and whose code generates writes the splice. */
  lemma RewriteHit(cfg: Config, e: Editor, path: string, eol: LineEnding, reg: Region, code: string)
    requires path in e.ws.files
    requires FindRegion(e.ws.files[path], e.ctx.bindHash) == Some(reg)
    requires GenerateCode(e.ctx, e.ws.files, eol) == Success(code)
    ensures Rewrite(cfg, e, path, eol) ==
      (e.(ws := e.ws.(files := e.ws.files[path := Splice(e.ws.files[path], reg, code)])), Success(path))
  {
    ReplaceMatchIsSplice(e.ws.files[path], e.ctx.bindHash, code);
  }

  /** Rewriting a script a second time changes nothing: the block written is found again,
      the same block is generated from the rewritten files, and replacing it by itself keeps
      the text. */
  lemma RewriteIdempotent(cfg: Config, e: Editor, path: string, eol: LineEnding)
    requires '>' !in e.ctx.bindHash && NoNodeReads(e.ctx, path)
    requires path in e.ws.files && Rewrite(cfg, e, path, eol).1.Success?
    ensures var (e', r) := Rewrite(cfg, e, path, eol);
      Rewrite(cfg, e', path, eol) == (e', r)
  {
    var hash := e.ctx.bindHash;
    var text := e.ws.files[path];
    RewriteSplices(cfg, e, path, eol);
    var reg := FindRegion(text, hash).value;
    var code := GenerateCode(e.ctx, e.ws.files, eol).value;
    var files' := e.ws.files[path := Splice(text, reg, code)];
    var e' := e.(ws := e.ws.(files := files'));
    assert Rewrite(cfg, e, path, eol) == (e', Success(path));
    SameBindScripts(e.ctx, e.ws.files, path, Splice(text, reg, code));
    GenerateDependsOnBindScripts(e.ctx, e.ws.files, files', eol);
    RegenerateIdempotent(text, hash, GeneratedBody(e.ctx, e.ws.files, eol));
    var t := files'[path];
    var reg' := FindRegion(t, hash).value;
    assert code == BindHashTag(hash, GeneratedBody(e.ctx, e.ws.files, eol));
    assert Splice(t, reg', code) == t;
    StoreSame(files', path);
    assert e'.ctx == e.ctx && e'.ws.files == files';
    assert GenerateCode(e'.ctx, e'.ws.files, eol) == Success(code);
    assert FindRegion(e'.ws.files[path], e'.ctx.bindHash) == Some(reg');
    RewriteHit(cfg, e', path, eol, reg', code);
    assert e'.(ws := e'.ws.(files := files')) == e';
  }

  /** Writing back the text a file already holds changes nothing. */
  lemma StoreSame(files: map<string, string>, path: string)
    requires path in files
    ensures files[path := files[path]] == files
  {
  }

  /** Writing a script no node is bound through leaves every node's bound script as it was. */
  lemma SameBindScripts(ctx: UIContext, files: map<string, string>, path: string, t: string)
    requires NoNodeReads(ctx, path)
    ensures forall k :: 0 <= k < |ctx.nodes| && ctx.nodes[k].component.Some? ==>
      BindScript(ctx.nodes[k].component.value, files) == BindScript(ctx.nodes[k].component.value, files[path := t])
  {
  }

  /** Running the update a second time changes nothing: it chooses the same script through
      the cache, finds the block it wrote, generates the same block and writes the same text. */
  lemma UpdateIdempotent(cfg: Config, assetPath: string, e: Editor, eol: LineEnding)
    requires '>' !in e.ctx.bindHash
    requires UpdateScriptCode(cfg, assetPath, e, eol).1.Success?
    requires NoNodeReads(e.ctx, UpdateScriptCode(cfg, assetPath, e, eol).1.value)
    ensures var (e', r) := UpdateScriptCode(cfg, assetPath, e, eol);
      UpdateScriptCode(cfg, assetPath, e', eol) == (e', r)
  {
    UpdateStages(cfg, assetPath, e, eol);
    PrepareAgain(cfg, assetPath, e, eol);
    var (e1, prep) := Prepare(cfg, assetPath, e);
    RewriteIdempotent(cfg, e1, prep.value, eol);
  }

  /** The interior of a generated block. */
  function GeneratedBody(ctx: UIContext, files: map<string, string>, eol: LineEnding): (body: string)
    requires GenerateCode(ctx, files, eol).Success?
    ensures GenerateCode(ctx, files, eol).value == BindHashTag(ctx.bindHash, body)
  {
    TsBody(Resolve(ctx.nodes, files).value, ctx.prefabPath, eol)
  }

  /** TipsGoPhaseHash (line 255): the marker the editor puts on the clipboard when no script
      is found. Pasted into a script, it is the region the next update rewrites. */
  function ClipboardTip(hash: string): (tip: string)
    ensures FindRegion(tip, hash) == Some(Region(0, |tip|))
    ensures Contains(tip, hash)
  {
    TagIsRegion(hash, "\n//...\n");
    var tip := BindHashTag(hash, "\n//...\n");
    assert OccursAt(tip, |"//<PREFAB "|, hash);
    ContainsIff(tip, hash);
    tip
  }
}
