/** `DataLoaderUtil`: the start-up load of the configured data files. Parking-space files
    (paths without "timestamp") are loaded first and routed by extension, then the
    parking spaces are copied into the edited table, then the timestamp files are loaded.
    The loaders themselves read files; here each dispatch is recorded as an action. */
module DataLoader {
  import opened Wrappers
  import opened Strings

  /** A call the loader makes, or a warning it logs. */
  datatype LoadAction =
    | LoadGeoJson(path: string)        // `parkingSpaceService.loadGeoJson`
    | LoadCsv(path: string)            // `parkingSpaceService.loadCsv`
    | LoadPointsGeoJson(path: string)  // `parkingPointService.loadGeoJson`
    | CopyData                         // `editedParkingSpaceService.copyDataIntoDatabase`
    | Unsupported(path: string)        // "Unsupported file format"
    | NoFilesConfigured                // "No data files configured for loading."

  /** The loader actions, as opposed to the warnings and the copy. */
  predicate IsSpaceLoad(a: LoadAction)
  {
    a.LoadGeoJson? || a.LoadCsv?
  }

  predicate IsTimestampPath(path: string)
  {
    Contains(path, "timestamp")
  }

  /** The parking-space files, in their configured order. */
  function ParkingSpaceFiles(paths: seq<string>): (r: seq<string>)
    ensures forall p | p in r :: p in paths && !IsTimestampPath(p)
    decreases |paths|
  {
    if paths == [] then []
    else
      var last := paths[|paths| - 1];
      ParkingSpaceFiles(paths[..|paths| - 1]) + (if !IsTimestampPath(last) then [last] else [])
  }

  /** The timestamp files, in their configured order. */
  function TimestampFiles(paths: seq<string>): (r: seq<string>)
    ensures forall p | p in r :: p in paths && IsTimestampPath(p)
    decreases |paths|
  {
    if paths == [] then []
    else
      var last := paths[|paths| - 1];
      TimestampFiles(paths[..|paths| - 1]) + (if IsTimestampPath(last) then [last] else [])
  }

  /** The two filters split the configured paths: every path is in exactly one of them,
      as often as it is configured. */
  lemma {:induction false} FilesPartition(paths: seq<string>)
    ensures multiset(ParkingSpaceFiles(paths)) + multiset(TimestampFiles(paths)) == multiset(paths)
    decreases |paths|
  {
    if paths != [] {
      FilesPartition(paths[..|paths| - 1]);
      assert paths == paths[..|paths| - 1] + [paths[|paths| - 1]];
    }
  }

  /** The switch over the lower-cased extension of a parking-space file. */
  function SpaceFileAction(path: string): (a: LoadAction)
    ensures (a.LoadGeoJson? || a.LoadCsv? || a.Unsupported?) && a.path == path
  {
    var extension := ToLower(GetExtension(path));
    if extension == "geojson" then LoadGeoJson(path)
    else if extension == "csv" then LoadCsv(path)
    else Unsupported(path)
  }

  /** A timestamp file is loaded only when its extension is "geojson" in any case. */
  function TimestampFileAction(path: string): (a: LoadAction)
    ensures (a.LoadPointsGeoJson? || a.Unsupported?) && a.path == path
  {
    if !EqualsIgnoreCase(GetExtension(path), "geojson") then Unsupported(path) else LoadPointsGeoJson(path)
  }

  /** The action taken for each file, in order. */
  function Actions(files: seq<string>, route: string -> LoadAction): (r: seq<LoadAction>)
    ensures |r| == |files|
    decreases |files|
  {
    if files == [] then [] else Actions(files[..|files| - 1], route) + [route(files[|files| - 1])]
  }

  /** Each file's action sits at the file's own position. */
  lemma {:induction false} ActionsAt(files: seq<string>, route: string -> LoadAction)
    ensures forall j | 0 <= j < |files| :: Actions(files, route)[j] == route(files[j])
    decreases |files|
  {
    if files != [] {
      var init := files[..|files| - 1];
      ActionsAt(init, route);
      assert forall j | 0 <= j < |init| :: init[j] == files[j];
    }
  }

  /** Routing one more file appends its action. */
  lemma ActionsStep(files: seq<string>, i: int, route: string -> LoadAction)
    requires 0 <= i < |files|
    ensures Actions(files[..i + 1], route) == Actions(files[..i], route) + [route(files[i])]
  {
    assert files[..i + 1][..i] == files[..i];
  }

  /** A routing of parking-space files: a load or a warning about that very file. */
  ghost predicate RoutesSpaceFiles(route: string -> LoadAction)
  {
    forall p :: (route(p).LoadGeoJson? || route(p).LoadCsv? || route(p).Unsupported?) && route(p).path == p
  }

  /** A routing of timestamp files: a point load or a warning about that very file. */
  ghost predicate RoutesTimestampFiles(route: string -> LoadAction)
  {
    forall p :: (route(p).LoadPointsGeoJson? || route(p).Unsupported?) && route(p).path == p
  }

  /** Everything `loadDataIntoDatabase` does, in order; `None` is a `null` list. */
  function LoadTrace(filePaths: Option<seq<string>>): seq<LoadAction>
  {
    if filePaths.None? || filePaths.value == [] then [NoFilesConfigured]
    else Actions(ParkingSpaceFiles(filePaths.value), SpaceFileAction) + [CopyData] +
         Actions(TimestampFiles(filePaths.value), TimestampFileAction)
  }

  /** `loadFromParkingSpacesFiles`. */
  method LoadFromParkingSpacesFiles(filePaths: seq<string>) returns (trace: seq<LoadAction>)
    ensures trace == Actions(ParkingSpaceFiles(filePaths), SpaceFileAction) + [CopyData]
  {
    var files := ParkingSpaceFiles(filePaths);
    trace := [];
    var i := 0;
    while i < |files|
      invariant 0 <= i <= |files|
      invariant trace == Actions(files[..i], SpaceFileAction)
    {
      ActionsStep(files, i, SpaceFileAction);
      trace := trace + [SpaceFileAction(files[i])];
      i := i + 1;
    }
    assert files[..i] == files;
    trace := trace + [CopyData];
  }

  /** `loadFromTimestampFiles`. */
  method LoadFromTimestampFiles(filePaths: seq<string>) returns (trace: seq<LoadAction>)
    ensures trace == Actions(TimestampFiles(filePaths), TimestampFileAction)
  {
    var files := TimestampFiles(filePaths);
    trace := [];
    var i := 0;
    while i < |files|
      invariant 0 <= i <= |files|
      invariant trace == Actions(files[..i], TimestampFileAction)
    {
      ActionsStep(files, i, TimestampFileAction);
      trace := trace + [TimestampFileAction(files[i])];
      i := i + 1;
    }
    assert files[..i] == files;
  }

  /** `loadDataIntoDatabase`. */
  method LoadDataIntoDatabase(filePaths: Option<seq<string>>) returns (trace: seq<LoadAction>)
    ensures trace == LoadTrace(filePaths)
  {
    if filePaths.Some? && filePaths.value != [] {
      var spaces := LoadFromParkingSpacesFiles(filePaths.value);
      var timestamps := LoadFromTimestampFiles(filePaths.value);
      trace := spaces + timestamps;
    } else {
      trace := [NoFilesConfigured];
    }
  }

  /** An empty or missing path list loads nothing and copies nothing. */
  lemma NothingConfiguredLoadsNothing(filePaths: Option<seq<string>>)
    requires filePaths.None? || filePaths.value == []
    ensures forall a | a in LoadTrace(filePaths) :: a == NoFilesConfigured
  {
  }

  /** The copy between two phases that never copy is the only copy. */
  lemma OnlyCopyBetweenPhases(before: seq<LoadAction>, after: seq<LoadAction>)
    requires forall j | 0 <= j < |before| :: !before[j].CopyData?
    requires forall j | 0 <= j < |after| :: !after[j].CopyData?
    ensures var trace := before + [CopyData] + after;
      forall j | 0 <= j < |trace| :: trace[j] == CopyData <==> j == |before|
  {
    var trace := before + [CopyData] + after;
    forall j | 0 <= j < |trace| ensures trace[j] == CopyData <==> j == |before| {
      if j < |before| {
        assert trace[j] == before[j];
      } else if j > |before| {
        assert trace[j] == after[j - |before| - 1];
      }
    }
  }

  /** The shape of a trace made of a parking-space phase, the copy and a timestamp
      phase, for any two file lists and routings. */
  lemma PhasesShape(spaceFiles: seq<string>, timestampFiles: seq<string>,
                    spaceRoute: string -> LoadAction, timestampRoute: string -> LoadAction)
    requires RoutesSpaceFiles(spaceRoute) && RoutesTimestampFiles(timestampRoute)
    ensures var before := Actions(spaceFiles, spaceRoute);
      var after := Actions(timestampFiles, timestampRoute);
      var trace := before + [CopyData] + after;
      |trace| == |spaceFiles| + 1 + |timestampFiles| &&
      (forall j | 0 <= j < |trace| :: trace[j] == CopyData <==> j == |spaceFiles|) &&
      trace[..|spaceFiles|] == before && trace[|spaceFiles| + 1..] == after &&
      (forall a | a in trace && IsSpaceLoad(a) :: a.path in spaceFiles) &&
      (forall a | a in trace && a.LoadPointsGeoJson? :: a.path in timestampFiles)
  {
    var before := Actions(spaceFiles, spaceRoute);
    var after := Actions(timestampFiles, timestampRoute);
    var trace := before + [CopyData] + after;
    ActionsAt(spaceFiles, spaceRoute);
    ActionsAt(timestampFiles, timestampRoute);
    forall j | 0 <= j < |before| ensures !before[j].CopyData? {
      var a := spaceRoute(spaceFiles[j]);
    }
    forall j | 0 <= j < |after| ensures !after[j].CopyData? {
      var a := timestampRoute(timestampFiles[j]);
    }
    OnlyCopyBetweenPhases(before, after);
    assert trace[..|before|] == before;
    assert trace[|before| + 1..] == after;
    forall a | a in trace && (IsSpaceLoad(a) || a.LoadPointsGeoJson?)
      ensures IsSpaceLoad(a) ==> a.path in spaceFiles
      ensures a.LoadPointsGeoJson? ==> a.path in timestampFiles
    {
      var j :| 0 <= j < |trace| && trace[j] == a;
      if j < |before| {
        assert a == spaceRoute(spaceFiles[j]);
        assert spaceFiles[j] in spaceFiles;
      } else if j > |before| {
        assert a == timestampRoute(timestampFiles[j - |before| - 1]);
        assert timestampFiles[j - |before| - 1] in timestampFiles;
      }
    }
  }

  lemma StandardRoutings()
    ensures RoutesSpaceFiles(SpaceFileAction) && RoutesTimestampFiles(TimestampFileAction)
  {
  }

  /** With paths configured, and no loader throwing, the copy runs exactly once; every
      parking-space file is handled before it, in the configured order, and every
      timestamp file after it. A throwing loader would end the load at its file. */
  lemma CopyRunsOnceBetweenPhases(paths: seq<string>)
    requires paths != []
    ensures var trace := LoadTrace(Some(paths));
      var n := |ParkingSpaceFiles(paths)|;
      |trace| == n + 1 + |TimestampFiles(paths)| &&
      (forall j | 0 <= j < |trace| :: trace[j] == CopyData <==> j == n) &&
      trace[..n] == Actions(ParkingSpaceFiles(paths), SpaceFileAction) &&
      trace[n + 1..] == Actions(TimestampFiles(paths), TimestampFileAction)
  {
    StandardRoutings();
    PhasesShape(ParkingSpaceFiles(paths), TimestampFiles(paths), SpaceFileAction, TimestampFileAction);
  }

  /** A parking-space file is never loaded as timestamps, nor a timestamp file as spaces. */
  lemma FilesGoToTheirLoader(paths: seq<string>)
    ensures forall a | a in LoadTrace(Some(paths)) && IsSpaceLoad(a) :: !IsTimestampPath(a.path) && a.path in paths
    ensures forall a | a in LoadTrace(Some(paths)) && a.LoadPointsGeoJson? :: IsTimestampPath(a.path) && a.path in paths
  {
    if paths != [] {
      StandardRoutings();
      PhasesShape(ParkingSpaceFiles(paths), TimestampFiles(paths), SpaceFileAction, TimestampFileAction);
    }
  }

  /** A parking-space file is routed by its lower-cased extension. */
  lemma SpaceFileRouting(path: string)
    ensures SpaceFileAction(path) == LoadGeoJson(path) <==> ToLower(GetExtension(path)) == "geojson"
    ensures SpaceFileAction(path) == LoadCsv(path) <==> ToLower(GetExtension(path)) == "csv"
    ensures SpaceFileAction(path) == Unsupported(path) <==> ToLower(GetExtension(path)) !in {"geojson", "csv"}
  {
  }

  /** A timestamp file is loaded exactly when its extension equals "geojson" ignoring case. */
  lemma TimestampFileRouting(path: string)
    ensures TimestampFileAction(path) == LoadPointsGeoJson(path) <==> EqualsIgnoreCase(GetExtension(path), "geojson")
    ensures TimestampFileAction(path) != LoadPointsGeoJson(path) ==> TimestampFileAction(path) == Unsupported(path)
  {
  }

  /** The extension test ignores letter case. */
  lemma UpperCaseGeoJsonIsLoaded()
    ensures SpaceFileAction("a.GeoJSON") == LoadGeoJson("a.GeoJSON")
  {
    assert "a.GeoJSON" == "a" + "." + "GeoJSON";
    ExtensionAfterLastDot("a", "GeoJSON");
    LowerGeoJson();
  }

  lemma UpperCaseCsvIsLoaded()
    ensures SpaceFileAction("spaces.CSV") == LoadCsv("spaces.CSV")
  {
    assert "spaces.CSV" == "spaces" + "." + "CSV";
    ExtensionAfterLastDot("spaces", "CSV");
    assert ToLower("CSV") == "csv";
  }

  lemma OtherExtensionIsOnlyReported()
    ensures SpaceFileAction("spaces.txt") == Unsupported("spaces.txt")
  {
    assert "spaces.txt" == "spaces" + "." + "txt";
    ExtensionAfterLastDot("spaces", "txt");
    assert ToLower("txt") == "txt";
  }

  /** A dot inside a directory name is not an extension. */
  lemma DotInDirectoryIsNoExtension()
    ensures SpaceFileAction("dir.csv/spaces") == Unsupported("dir.csv/spaces")
  {
    var path := "dir.csv/spaces";
    GetExtensionMeaning(path);
    assert !HasExtensionDot(path) by {
      forall k | 0 <= k < |path| && path[k] == '.' ensures exists j | k < j < |path| :: IsSeparator(path[j]) {
        assert IsSeparator(path[7]);
      }
    }
    assert GetExtension(path) == "";
  }

  lemma UpperCaseTimestampFileIsLoaded()
    ensures TimestampFileAction("t.GEOJSON") == LoadPointsGeoJson("t.GEOJSON")
  {
    assert "t.GEOJSON" == "t" + "." + "GEOJSON";
    ExtensionAfterLastDot("t", "GEOJSON");
    UpperGeoJsonMatches();
  }

  lemma LowerGeoJson()
    ensures ToLower("GeoJSON") == "geojson"
  {
  }

  lemma UpperGeoJsonMatches()
    ensures EqualsIgnoreCase("GEOJSON", "geojson")
  {
  }
}
