/** The file-level part of `discover_targets`, `resolve_includes` and the
    merge of the two target dicts in `main`. The file system is reached only
    through three functions given as parameters: `load` reads and parses a
    file, `resolve` joins an include entry to the including file's directory
    and resolves it, and `isFile` tells whether a path exists as a file. */
module Discovery {
  import opened Ordering
  import opened Dicts
  import opened Compose
  import opened Targets

  // ------------------------------------------------------------ includes

  /** The paths a list of `include:` entries names that are files, in list
      order; entries that are not strings are skipped. */
  function ItemPaths(metaFile: Path, items: seq<Value>, resolve: (Path, string) -> Path, isFile: Path -> bool): seq<Path>
  {
    if items == [] then []
    else
      var last := items[|items| - 1];
      ItemPaths(metaFile, items[..|items| - 1], resolve, isFile)
        + (if last.Str? && isFile(resolve(metaFile, last.s)) then [resolve(metaFile, last.s)] else [])
  }

  /** What `resolve_includes(meta_file)` returns for the document the file
      holds: nothing unless the document is a mapping whose `include:` is a
      list. */
  function IncludedPaths(metaFile: Path, doc: Document, resolve: (Path, string) -> Path, isFile: Path -> bool): seq<Path>
  {
    if doc.Mapping? && doc.includes.IncludeList? then ItemPaths(metaFile, doc.includes.items, resolve, isFile) else []
  }

  /** `resolve_includes(meta_file)`. */
  method ResolveIncludes(metaFile: Path, load: Path -> Document, resolve: (Path, string) -> Path, isFile: Path -> bool)
    returns (resolved: seq<Path>)
    ensures resolved == IncludedPaths(metaFile, load(metaFile), resolve, isFile)
  {
    var data := load(metaFile);
    if !data.Mapping? || !data.includes.IncludeList? {
      return [];
    }
    var items := data.includes.items;
    resolved := [];
    for i := 0 to |items|
      invariant resolved == ItemPaths(metaFile, items[..i], resolve, isFile)
    {
      assert items[..i + 1][..i] == items[..i];
      var item := items[i];
      if item.Str? {
        var p := resolve(metaFile, item.s);
        if isFile(p) {
          resolved := resolved + [p];
        }
      }
    }
    assert items[..|items|] == items;
  }

  /** A path is returned exactly when a string entry resolves to it and it is
      a file. */
  lemma {:induction false} ItemPathsMembers(metaFile: Path, items: seq<Value>, resolve: (Path, string) -> Path, isFile: Path -> bool, p: Path)
    ensures p in ItemPaths(metaFile, items, resolve, isFile) <==>
      isFile(p) && exists i :: 0 <= i < |items| && items[i].Str? && resolve(metaFile, items[i].s) == p
  {
    if items != [] {
      var init := items[..|items| - 1];
      ItemPathsMembers(metaFile, init, resolve, isFile, p);
      assert forall i :: 0 <= i < |init| ==> init[i] == items[i];
    }
  }

  /** The paths `discover_targets` collects from every document that has an
      `include:` key, file by file. */
  function AllIncluded(files: seq<Path>, load: Path -> Document, resolve: (Path, string) -> Path, isFile: Path -> bool): seq<Path>
  {
    if files == [] then []
    else
      var f := files[|files| - 1];
      var doc := load(f);
      AllIncluded(files[..|files| - 1], load, resolve, isFile)
        + (if doc.Mapping? && !doc.includes.NoInclude? then IncludedPaths(f, doc, resolve, isFile) else [])
  }

  /** The document of `f` lists, under `include:`, a string entry that
      resolves to `p`. */
  predicate IncludesEntry(f: Path, doc: Document, resolve: (Path, string) -> Path, p: Path)
  {
    && doc.Mapping? && doc.includes.IncludeList?
    && exists j :: 0 <= j < |doc.includes.items| && doc.includes.items[j].Str? && resolve(f, doc.includes.items[j].s) == p
  }

  /** Some file of `files` has a document that includes `p`. */
  predicate SomeFileIncludes(files: seq<Path>, load: Path -> Document, resolve: (Path, string) -> Path, p: Path)
  {
    exists i :: 0 <= i < |files| && IncludesEntry(files[i], load(files[i]), resolve, p)
  }

  lemma SomeFileIncludesSnoc(files: seq<Path>, load: Path -> Document, resolve: (Path, string) -> Path, p: Path)
    requires files != []
    ensures SomeFileIncludes(files, load, resolve, p) <==>
      || SomeFileIncludes(files[..|files| - 1], load, resolve, p)
      || IncludesEntry(files[|files| - 1], load(files[|files| - 1]), resolve, p)
  {
    var init := files[..|files| - 1];
    assert forall i :: 0 <= i < |init| ==> init[i] == files[i];
  }

  /** The includes of one document are the files its string entries resolve to. */
  lemma IncludedPathsMembers(f: Path, doc: Document, resolve: (Path, string) -> Path, isFile: Path -> bool, p: Path)
    ensures p in IncludedPaths(f, doc, resolve, isFile) <==> isFile(p) && IncludesEntry(f, doc, resolve, p)
  {
    if doc.Mapping? && doc.includes.IncludeList? {
      ItemPathsMembers(f, doc.includes.items, resolve, isFile, p);
    }
  }

  /** A path is collected exactly when it is a file and some file's document
      has a string `include:` entry that resolves to it. */
  lemma {:induction false} AllIncludedMembers(files: seq<Path>, load: Path -> Document, resolve: (Path, string) -> Path,
                                              isFile: Path -> bool, p: Path)
    ensures p in AllIncluded(files, load, resolve, isFile) <==> isFile(p) && SomeFileIncludes(files, load, resolve, p)
  {
    if files != [] {
      var init, f := files[..|files| - 1], files[|files| - 1];
      var doc := load(f);
      var last := IncludedPaths(f, doc, resolve, isFile);
      assert AllIncluded(files, load, resolve, isFile) == AllIncluded(init, load, resolve, isFile) + last;
      AllIncludedMembers(init, load, resolve, isFile, p);
      IncludedPathsMembers(f, doc, resolve, isFile, p);
      SomeFileIncludesSnoc(files, load, resolve, p);
    }
  }

  // ------------------------------------------------------------ the scan set

  /** The files `discover_targets` scans: only the included ones when asked to
      and some exist, otherwise every file found and every file included;
      sorted, each once. */
  function ScanSet(all: seq<Path>, included: seq<Path>, onlyIncluded: bool): seq<Path>
  {
    if onlyIncluded && included != [] then SortDedup(included, PathLess) else SortDedup(all + included, PathLess)
  }

  /** The scan set is sorted, holds no path twice, and holds exactly the
      chosen paths. */
  lemma ScanSetSpec(all: seq<Path>, included: seq<Path>, onlyIncluded: bool)
    ensures StrictlySorted(ScanSet(all, included, onlyIncluded), PathLess)
    ensures forall p :: p in ScanSet(all, included, onlyIncluded) <==>
      if onlyIncluded && included != [] then p in included else p in all || p in included
  {
    PathLessOrder();
    if onlyIncluded && included != [] {
      SortDedupSorted(included, PathLess);
    } else {
      SortDedupSorted(all + included, PathLess);
    }
  }

  /** Any sorted sequence without repeats of the chosen paths is the scan
      set: the order in which files are scanned is fixed by the paths alone. */
  lemma ScanSetUnique(all: seq<Path>, included: seq<Path>, onlyIncluded: bool, order: seq<Path>)
    requires StrictlySorted(order, PathLess)
    requires forall p :: p in order <==>
      if onlyIncluded && included != [] then p in included else p in all || p in included
    ensures order == ScanSet(all, included, onlyIncluded)
  {
    ScanSetSpec(all, included, onlyIncluded);
    PathLessOrder();
    SortedUnique(order, ScanSet(all, included, onlyIncluded), PathLess);
  }

  // ------------------------------------------------------------ all services

  function ServicesPublic(services: seq<Service>, domain: string): seq<(string, string)>
  {
    if services == [] then []
    else ServicesPublic(services[..|services| - 1], domain) + ServicePublic(services[|services| - 1], domain)
  }

  function ServicesBackend(services: seq<Service>): seq<(string, string)>
  {
    if services == [] then []
    else ServicesBackend(services[..|services| - 1]) + ServiceBackend(services[|services| - 1])
  }

  /** The services of a document, when it is a mapping with a `services:`
      mapping. */
  function DocServices(doc: Document): seq<Service>
  {
    if doc.Mapping? && doc.services.ServiceMapping? then doc.services.entries else []
  }

  /** Every public monitor assignment made while scanning `files`, in order. */
  function FilesPublic(files: seq<Path>, load: Path -> Document, domain: string): seq<(string, string)>
  {
    if files == [] then []
    else FilesPublic(files[..|files| - 1], load, domain) + ServicesPublic(DocServices(load(files[|files| - 1])), domain)
  }

  /** Every backend monitor assignment made while scanning `files`, in order. */
  function FilesBackend(files: seq<Path>, load: Path -> Document): seq<(string, string)>
  {
    if files == [] then []
    else FilesBackend(files[..|files| - 1], load) + ServicesBackend(DocServices(load(files[|files| - 1])))
  }

  /** The first loop of `discover_targets`: the includes of every document
      that has an `include:` key, file by file. */
  method CollectIncludes(allFiles: seq<Path>, load: Path -> Document, resolve: (Path, string) -> Path,
                         isFile: Path -> bool)
    returns (included: seq<Path>)
    ensures included == AllIncluded(allFiles, load, resolve, isFile)
  {
    included := [];
    for i := 0 to |allFiles|
      invariant included == AllIncluded(allFiles[..i], load, resolve, isFile)
    {
      assert allFiles[..i + 1][..i] == allFiles[..i];
      var f := allFiles[i];
      var data := load(f);
      if data.Mapping? && !data.includes.NoInclude? {
        var found := ResolveIncludes(f, load, resolve, isFile);
        included := included + found;
      }
    }
    assert allFiles[..|allFiles|] == allFiles;
  }

  /** The service loop of `discover_targets` for one document. */
  method ScanServices(public0: Dict, backend0: Dict, services: seq<Service>, domain: string)
    returns (public: Dict, backend: Dict)
    ensures public == PutAll(public0, ServicesPublic(services, domain))
    ensures backend == PutAll(backend0, ServicesBackend(services))
  {
    public, backend := public0, backend0;
    for j := 0 to |services|
      invariant public == PutAll(public0, ServicesPublic(services[..j], domain))
      invariant backend == PutAll(backend0, ServicesBackend(services[..j]))
    {
      assert services[..j + 1][..j] == services[..j];
      PutAllAppend(public0, ServicesPublic(services[..j], domain), ServicePublic(services[j], domain));
      PutAllAppend(backend0, ServicesBackend(services[..j]), ServiceBackend(services[j]));
      public, backend := AddServiceTargets(public, backend, services[j], domain);
    }
    assert services[..|services|] == services;
  }

  /** `discover_targets(compose_root, domain, only_included)`, given the YAML
      files found under the root: includes are collected, the scan set is
      chosen, and every service of every scanned file assigns its monitors. */
  method DiscoverTargets(allFiles: seq<Path>, load: Path -> Document, resolve: (Path, string) -> Path,
                         isFile: Path -> bool, domain: string, onlyIncluded: bool)
    returns (public: Dict, backend: Dict)
    ensures var scan := ScanSet(allFiles, AllIncluded(allFiles, load, resolve, isFile), onlyIncluded);
      && public == PutAll([], FilesPublic(scan, load, domain))
      && backend == PutAll([], FilesBackend(scan, load))
  {
    var included := CollectIncludes(allFiles, load, resolve, isFile);
    var scan := ScanSet(allFiles, included, onlyIncluded);
    public, backend := ScanFiles(scan, load, domain);
  }

  /** The file loop of `discover_targets`: the services of each file of the
      scan set, in scan order, assign their monitors into the two dicts. */
  method ScanFiles(scan: seq<Path>, load: Path -> Document, domain: string) returns (public: Dict, backend: Dict)
    ensures public == PutAll([], FilesPublic(scan, load, domain))
    ensures backend == PutAll([], FilesBackend(scan, load))
  {
    public, backend := [], [];
    for i := 0 to |scan|
      invariant public == PutAll([], FilesPublic(scan[..i], load, domain))
      invariant backend == PutAll([], FilesBackend(scan[..i], load))
    {
      assert scan[..i + 1][..i] == scan[..i];
      var services := DocServices(load(scan[i]));
      PutAllAppend([], FilesPublic(scan[..i], load, domain), ServicesPublic(services, domain));
      PutAllAppend([], FilesBackend(scan[..i], load), ServicesBackend(services));
      public, backend := ScanServices(public, backend, services, domain);
    }
    assert scan[..|scan|] == scan;
  }

  /** When several services ask for a monitor of the same name, the one
      scanned last sets its URL; neither dict ever holds a name twice. */
  lemma LastServiceWins(files: seq<Path>, load: Path -> Document, domain: string, name: string)
    ensures Get(PutAll([], FilesPublic(files, load, domain)), name) == LastValue(FilesPublic(files, load, domain), name)
    ensures Valid(PutAll([], FilesPublic(files, load, domain)))
    ensures Get(PutAll([], FilesBackend(files, load)), name) == LastValue(FilesBackend(files, load), name)
    ensures Valid(PutAll([], FilesBackend(files, load)))
  {
    PutAllGet([], FilesPublic(files, load, domain), name);
    PutAllValid([], FilesPublic(files, load, domain));
    PutAllGet([], FilesBackend(files, load), name);
    PutAllValid([], FilesBackend(files, load));
  }

  // ------------------------------------------------------------ main's merge

  /** `all_targets = {}; all_targets.update(public); all_targets.update(backend)`:
      a name present in both keeps its backend URL. */
  function MergeTargets(public: Dict, backend: Dict): (all: Dict)
    requires Valid(public) && Valid(backend)
    ensures Valid(all)
    ensures forall k :: Get(all, k) == if Get(backend, k).Some? then Get(backend, k) else Get(public, k)
  {
    var all := PutAll(PutAll([], public), backend);
    PutAllValid([], public);
    PutAllValid(PutAll([], public), backend);
    forall k ensures Get(all, k) == if Get(backend, k).Some? then Get(backend, k) else Get(public, k) {
      UpdateGet(PutAll([], public), backend, k);
      PutAllGet([], public, k);
      LastValueOfValid(public, k);
    }
    all
  }

  /** With no name in common, the merge keeps both dicts whole, public
      monitors first, so its size is the sum of theirs. */
  lemma MergeDisjoint(public: Dict, backend: Dict)
    requires Valid(public) && Valid(backend)
    requires forall k :: k in Keys(backend) ==> k !in Keys(public)
    ensures MergeTargets(public, backend) == public + backend
  {
    PutAllOfDict(public);
    PutAllFresh(public, backend);
  }
}
