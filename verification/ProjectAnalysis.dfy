/** Analysing a whole project, each file once, with the first program that lists it.
    The phases under `packages/jsts/src/analysis/projectAnalysis` and the program table of
    `packages/jsts/src/program/program.ts`. */
module ProjectAnalysis {
  import opened Common
  import opened Paths

  type FileName = string
  type TsConfig = string

  const DEFAULT_LANGUAGE := "ts"

  datatype JsTsFile = JsTsFile(fileContent: Option<string>, fileType: string, language: Option<string>)

  type JsTsFiles = map<FileName, JsTsFile>

  datatype ProgramInfo = ProgramInfo(files: seq<FileName>, projectReferences: seq<TsConfig>)

  /** The type information behind one file analysis. */
  datatype Typing = Typed(program: TsConfig) | Watched(tsConfig: TsConfig) | Untyped | MissingProgram

  datatype Request = Request(
    filePath: FileName, fileContent: string, fileType: string, language: string, typing: Typing)

  /** An exception of the analysis is wrapped in the output. */
  datatype Output = Analysed(request: Request) | ParsingError(request: Request, message: string)

  /** What TypeScript, the file system and the analysis of one file answer; `None` stands for a thrown error, and the
      last function gives the message of the error thrown, if any. */
  datatype Env = Env(
    createProgram: TsConfig -> Option<ProgramInfo>,
    createProgramOptions: TsConfig -> Option<seq<FileName>>,
    readFile: FileName -> string,
    analyzeJSTS: Request -> Option<string>)

  function OutputFor(env: Env, files: JsTsFiles, f: FileName, typing: Typing): (r: Output)
    requires f in files
    ensures r.request.filePath == f && r.request.fileType == files[f].fileType && r.request.typing == typing
    ensures files[f].fileContent in {None, Some(r.request.fileContent)}
    ensures files[f].fileContent.None? ==> r.request.fileContent == env.readFile(f)
    ensures files[f].language == Some(r.request.language) || (files[f].language.None? && r.request.language == "ts")
    ensures env.analyzeJSTS(r.request) == if r.ParsingError? then Some(r.message) else None
  {
    var file := files[f];
    var request := Request(
      f,
      if file.fileContent.Some? then file.fileContent.value else env.readFile(f),
      file.fileType,
      if file.language.Some? then file.language.value else DEFAULT_LANGUAGE,
      typing);
    match env.analyzeJSTS(request)
    case None => Analysed(request)
    case Some(message) => ParsingError(request, message)
  }

  /** References never lead back to where they started. */
  ghost predicate Acyclic(env: Env, rank: TsConfig -> nat) {
    forall t, r :: env.createProgram(t).Some? && r in env.createProgram(t).value.projectReferences ==> rank(r) < rank(t)
  }

  /** One program met by the analysis, with the files it lists. */
  datatype Listing = Listing(tsConfig: TsConfig, files: seq<FileName>)

  /** The programs created from a tsconfig: itself, then those of its references, in order. */
  ghost function Listings(env: Env, rank: TsConfig -> nat, t: TsConfig): seq<Listing>
    requires Acyclic(env, rank)
    decreases rank(t), 1, 0
  {
    match env.createProgram(t)
    case None => []
    case Some(p) => [Listing(t, p.files)] + ListingsOfAll(env, rank, p.projectReferences, rank(t))
  }

  ghost function ListingsOfAll(env: Env, rank: TsConfig -> nat, ts: seq<TsConfig>, bound: nat): seq<Listing>
    requires Acyclic(env, rank) && forall t :: t in ts ==> rank(t) < bound
    decreases bound, 0, |ts|
  {
    if ts == [] then [] else Listings(env, rank, ts[0]) + ListingsOfAll(env, rank, ts[1..], bound)
  }

  /** A chain of references that leads from `t` to a program; every tsconfig on it is usable. */
  predicate Reached(env: Env, t: TsConfig, path: Path, l: Listing)
    decreases |path|
  {
    match env.createProgram(t)
    case None => false
    case Some(p) =>
      if path == [] then l == Listing(t, p.files)
      else path[0] < |p.projectReferences| && Reached(env, p.projectReferences[path[0]], path[1..], l)
  }

  ghost function ListingPlaces(env: Env, rank: TsConfig -> nat, t: TsConfig): seq<Found<Listing>>
    requires Acyclic(env, rank)
    decreases rank(t)
  {
    match env.createProgram(t)
    case None => []
    case Some(p) =>
      var refs := p.projectReferences;
      [Found([], Listing(t, p.files))]
      + Spread(seq(|refs|, i requires 0 <= i < |refs| => ListingPlaces(env, rank, refs[i])), 0)
  }

  ghost function PlacesFrom(env: Env, rank: TsConfig -> nat, ts: seq<TsConfig>): (r: seq<seq<Found<Listing>>>)
    requires Acyclic(env, rank)
    ensures |r| == |ts| && forall i :: 0 <= i < |ts| ==> r[i] == ListingPlaces(env, rank, ts[i])
  {
    seq(|ts|, i requires 0 <= i < |ts| => ListingPlaces(env, rank, ts[i]))
  }

  lemma ListingPlacesOf(env: Env, rank: TsConfig -> nat, t: TsConfig)
    requires Acyclic(env, rank)
    ensures env.createProgram(t).Some? ==>
      ListingPlaces(env, rank, t) == [Found([], Listing(t, env.createProgram(t).value.files))]
        + Spread(PlacesFrom(env, rank, env.createProgram(t).value.projectReferences), 0)
  {
    if env.createProgram(t).Some? {
      var refs := env.createProgram(t).value.projectReferences;
      assert PlacesFrom(env, rank, refs)
        == seq(|refs|, i requires 0 <= i < |refs| => ListingPlaces(env, rank, refs[i]));
    }
  }

  lemma {:induction false} PlacesHoldListings(env: Env, rank: TsConfig -> nat, t: TsConfig)
    requires Acyclic(env, rank)
    ensures Values(ListingPlaces(env, rank, t)) == Listings(env, rank, t)
    decreases rank(t), 1, 0
  {
    if env.createProgram(t).Some? {
      var p := env.createProgram(t).value;
      var below := PlacesFrom(env, rank, p.projectReferences);
      ListingPlacesOf(env, rank, t);
      ValuesAppend([Found([], Listing(t, p.files))], Spread(below, 0));
      ValuesSpread(below, 0);
      PlacesHoldListingsOfAll(env, rank, p.projectReferences, rank(t));
      assert Values([Found([], Listing(t, p.files))]) == [Listing(t, p.files)];
    }
  }

  lemma {:induction false} PlacesHoldListingsOfAll(env: Env, rank: TsConfig -> nat, ts: seq<TsConfig>, bound: nat)
    requires Acyclic(env, rank) && forall t :: t in ts ==> rank(t) < bound
    ensures Flat(AllValues(PlacesFrom(env, rank, ts))) == ListingsOfAll(env, rank, ts, bound)
    decreases bound, 0, |ts|
  {
    if ts != [] {
      assert ts[0] in ts;
      PlacesHoldListings(env, rank, ts[0]);
      PlacesHoldListingsOfAll(env, rank, ts[1..], bound);
      assert PlacesFrom(env, rank, ts)[1..] == PlacesFrom(env, rank, ts[1..]);
    }
  }

  lemma {:induction false} ListingPlacesInOrder(env: Env, rank: TsConfig -> nat, t: TsConfig)
    requires Acyclic(env, rank)
    ensures InOrder(ListingPlaces(env, rank, t), false)
    decreases rank(t)
  {
    if env.createProgram(t).Some? {
      var p := env.createProgram(t).value;
      var below := PlacesFrom(env, rank, p.projectReferences);
      forall i | 0 <= i < |below| ensures InOrder(below[i], false) {
        assert p.projectReferences[i] in p.projectReferences;
        ListingPlacesInOrder(env, rank, p.projectReferences[i]);
      }
      ListingPlacesOf(env, rank, t);
      SpreadInOrder(below, 0, false);
      ParentFirst([Found([], Listing(t, p.files))], Spread(below, 0));
    }
  }

  lemma {:induction false} ListingPlacesAreReached(env: Env, rank: TsConfig -> nat, t: TsConfig, f: Found<Listing>)
    requires Acyclic(env, rank)
    ensures f in ListingPlaces(env, rank, t) <==> Reached(env, t, f.path, f.value)
    decreases rank(t)
  {
    if env.createProgram(t).Some? {
      var p := env.createProgram(t).value;
      ListingPlacesOf(env, rank, t);
      MembersWithOwn([Found([], Listing(t, p.files))], PlacesFrom(env, rank, p.projectReferences), f);
      if f.path != [] && f.path[0] < |p.projectReferences| {
        assert p.projectReferences[f.path[0]] in p.projectReferences;
        ListingPlacesAreReached(env, rank, p.projectReferences[f.path[0]], Found(f.path[1..], f.value));
      }
    }
  }

  lemma {:induction false} PlacesHoldProgramListings(env: Env, rank: TsConfig -> nat, ts: seq<TsConfig>)
    requires Acyclic(env, rank)
    ensures Flat(AllValues(PlacesFrom(env, rank, ts))) == ProgramListings(env, rank, ts)
  {
    if ts != [] {
      PlacesHoldListings(env, rank, ts[0]);
      PlacesHoldProgramListings(env, rank, ts[1..]);
      assert PlacesFrom(env, rank, ts)[1..] == PlacesFrom(env, rank, ts[1..]);
    }
  }

  /** The programs of a run are those that some tsconfig leads to, once for every chain of references, and in the order
      of the chains: a program before those it refers to. */
  lemma ProgramsReached(env: Env, rank: TsConfig -> nat, ts: seq<TsConfig>) returns (places: seq<Found<Listing>>)
    requires Acyclic(env, rank)
    ensures ProgramListings(env, rank, ts) == Values(places) && InOrder(places, false)
    ensures forall f :: f in places <==>
      f.path != [] && f.path[0] < |ts| && Reached(env, ts[f.path[0]], f.path[1..], f.value)
  {
    var below := PlacesFrom(env, rank, ts);
    places := Spread(below, 0);
    PlacesHoldProgramListings(env, rank, ts);
    ValuesSpread(below, 0);
    forall i | 0 <= i < |below| ensures InOrder(below[i], false) {
      ListingPlacesInOrder(env, rank, ts[i]);
    }
    SpreadInOrder(below, 0, false);
    forall f ensures f in places <==>
      f.path != [] && f.path[0] < |ts| && Reached(env, ts[f.path[0]], f.path[1..], f.value)
    {
      SpreadMembers(below, 0, f);
      if f.path != [] && f.path[0] < |ts| {
        ListingPlacesAreReached(env, rank, ts[f.path[0]], Found(f.path[1..], f.value));
      }
    }
  }

  function FirstListing(ls: seq<Listing>, f: FileName): Option<TsConfig> {
    if ls == [] then None
    else if f in ls[0].files then Some(ls[0].tsConfig)
    else FirstListing(ls[1..], f)
  }

  /** The first listing that holds the file, if any. */
  lemma {:induction false} FirstListingIff(ls: seq<Listing>, f: FileName)
    ensures FirstListing(ls, f).None? <==> forall l :: l in ls ==> f !in l.files
    ensures FirstListing(ls, f).Some? ==>
      exists k: nat :: k < |ls| && FirstAt(ls, f, k) && FirstListing(ls, f) == Some(ls[k].tsConfig)
  {
    if ls != [] && f !in ls[0].files {
      FirstListingIff(ls[1..], f);
      if FirstListing(ls[1..], f).Some? {
        var k: nat :| k < |ls[1..]| && FirstAt(ls[1..], f, k) && FirstListing(ls[1..], f) == Some(ls[1..][k].tsConfig);
        assert forall j :: 0 < j < |ls| ==> ls[j] == ls[1..][j - 1];
        assert FirstAt(ls, f, k + 1) && ls[k + 1] in ls;
      } else {
        assert forall l :: l in ls <==> l == ls[0] || l in ls[1..];
      }
    } else if ls != [] {
      assert FirstAt(ls, f, 0) && ls[0] in ls;
    }
  }

  ghost predicate FirstAt(ls: seq<Listing>, f: FileName, k: nat)
    requires k < |ls|
  {
    f in ls[k].files && forall j :: 0 <= j < k ==> f !in ls[j].files
  }

  lemma {:induction false} FirstListingAppend(a: seq<Listing>, b: seq<Listing>, f: FileName)
    ensures FirstListing(a + b, f) == if FirstListing(a, f).Some? then FirstListing(a, f) else FirstListing(b, f)
  {
    if a == [] {
      assert a + b == b;
    } else {
      assert (a + b)[1..] == a[1..] + b;
      FirstListingAppend(a[1..], b, f);
    }
  }

  function TsConfigs(ls: seq<Listing>): (r: seq<TsConfig>)
    ensures |r| == |ls| && forall i :: 0 <= i < |ls| ==> r[i] == ls[i].tsConfig
  {
    if ls == [] then [] else [ls[0].tsConfig] + TsConfigs(ls[1..])
  }

  ghost predicate NoDuplicates<T>(s: seq<T>) {
    forall i, j :: 0 <= i < j < |s| ==> s[i] != s[j]
  }

  function TypingOf(t: TsConfig, watch: bool): Typing {
    if watch then Watched(t) else Typed(t)
  }

  function Without(s: seq<FileName>, f: FileName): seq<FileName> {
    if s == [] then [] else if s[0] == f then Without(s[1..], f) else [s[0]] + Without(s[1..], f)
  }

  /** The part of the state that the program phases change; `calls` records the file analyses in order. */
  datatype View = View(
    files: map<FileName, Output>, pendingFiles: seq<FileName>, calls: seq<FileName>, programsCreated: seq<TsConfig>)

  /** One file of a program: analysed if it is requested and still pending. */
  function AnalyzeOne(v: View, env: Env, input: JsTsFiles, f: FileName, typing: Typing): View {
    if f in input && f in v.pendingFiles then
      v.(files := v.files[f := OutputFor(env, input, f, typing)],
         pendingFiles := Without(v.pendingFiles, f), calls := v.calls + [f])
    else v
  }

  function AnalyzeEach(v: View, env: Env, input: JsTsFiles, fs: seq<FileName>, typing: Typing): View
    decreases |fs|
  {
    if fs == [] then v else AnalyzeEach(AnalyzeOne(v, env, input, fs[0], typing), env, input, fs[1..], typing)
  }

  /** One program: only the watch phase leaves no trace of it in the results. */
  function AnalyzeListing(v: View, env: Env, input: JsTsFiles, l: Listing, watch: bool): View {
    var v' := if watch then v else v.(programsCreated := v.programsCreated + [l.tsConfig]);
    AnalyzeEach(v', env, input, l.files, TypingOf(l.tsConfig, watch))
  }

  function AnalyzeListings(v: View, env: Env, input: JsTsFiles, ls: seq<Listing>, watch: bool): View
    decreases |ls|
  {
    if ls == [] then v else AnalyzeListings(AnalyzeListing(v, env, input, ls[0], watch), env, input, ls[1..], watch)
  }

  lemma {:induction false} AnalyzeListingsAppend(v: View, env: Env, input: JsTsFiles,
      a: seq<Listing>, b: seq<Listing>, watch: bool)
    ensures AnalyzeListings(v, env, input, a + b, watch) ==
      AnalyzeListings(AnalyzeListings(v, env, input, a, watch), env, input, b, watch)
    decreases |a|
  {
    if a == [] {
      assert a + b == b;
    } else {
      assert (a + b)[1..] == a[1..] + b;
      AnalyzeListingsAppend(AnalyzeListing(v, env, input, a[0], watch), env, input, a[1..], b, watch);
    }
  }

  /** The programs on record are those met, in the order met. */
  lemma {:induction false} CreatedPrograms(v: View, env: Env, input: JsTsFiles, ls: seq<Listing>, watch: bool)
    ensures AnalyzeListings(v, env, input, ls, watch).programsCreated ==
      if watch then v.programsCreated else v.programsCreated + TsConfigs(ls)
    decreases |ls|
  {
    if ls == [] {
      assert v.programsCreated + [] == v.programsCreated;
    } else {
      OneCreated(v, env, input, ls[0], watch);
      CreatedPrograms(AnalyzeListing(v, env, input, ls[0], watch), env, input, ls[1..], watch);
      Reassociate(v.programsCreated, [ls[0].tsConfig], TsConfigs(ls[1..]));
    }
  }

  lemma Reassociate<T>(a: seq<T>, b: seq<T>, c: seq<T>)
    ensures a + b + c == a + (b + c)
  {
  }

  lemma OneCreated(v: View, env: Env, input: JsTsFiles, l: Listing, watch: bool)
    ensures AnalyzeListing(v, env, input, l, watch).programsCreated ==
      if watch then v.programsCreated else v.programsCreated + [l.tsConfig]
  {
    var v' := if watch then v else v.(programsCreated := v.programsCreated + [l.tsConfig]);
    EachKeepsPrograms(v', env, input, l.files, TypingOf(l.tsConfig, watch));
  }

  lemma {:induction false} EachKeepsPrograms(v: View, env: Env, input: JsTsFiles, fs: seq<FileName>, typing: Typing)
    ensures AnalyzeEach(v, env, input, fs, typing).programsCreated == v.programsCreated
    decreases |fs|
  {
    if fs != [] {
      EachKeepsPrograms(AnalyzeOne(v, env, input, fs[0], typing), env, input, fs[1..], typing);
    }
  }

  /** The bookkeeping at every step: results and pending files split the input, and no file is analysed twice. */
  ghost predicate Split(v: View, input: JsTsFiles) {
    && (forall f :: f in v.pendingFiles ==> f in input && f !in v.files)
    && (forall f :: f in v.files ==> f in input && f in v.calls)
    && (forall f :: f in v.calls ==> f in v.files)
    && (forall f :: f in input ==> f in v.files || f in v.pendingFiles)
    && NoDuplicates(v.calls) && NoDuplicates(v.pendingFiles)
  }

  lemma {:induction false} WithoutMembers(s: seq<FileName>, f: FileName)
    ensures forall g :: g in Without(s, f) <==> g in s && g != f
    ensures NoDuplicates(s) ==> NoDuplicates(Without(s, f))
  {
    if s != [] {
      WithoutMembers(s[1..], f);
      if NoDuplicates(s) {
        assert forall i :: 1 <= i < |s| ==> s[i] == s[1..][i - 1];
        assert NoDuplicates(s[1..]) && s[0] !in s[1..];
      }
    }
  }

  lemma SplitStep(v: View, env: Env, input: JsTsFiles, f: FileName, typing: Typing)
    requires Split(v, input)
    ensures Split(AnalyzeOne(v, env, input, f, typing), input)
  {
    WithoutMembers(v.pendingFiles, f);
    assert f in v.pendingFiles ==> f !in v.calls;
  }

  lemma {:induction false} SplitEach(v: View, env: Env, input: JsTsFiles, fs: seq<FileName>, typing: Typing)
    requires Split(v, input)
    ensures Split(AnalyzeEach(v, env, input, fs, typing), input)
    decreases |fs|
  {
    if fs != [] {
      SplitStep(v, env, input, fs[0], typing);
      SplitEach(AnalyzeOne(v, env, input, fs[0], typing), env, input, fs[1..], typing);
    }
  }

  lemma {:induction false} SplitListings(v: View, env: Env, input: JsTsFiles, ls: seq<Listing>, watch: bool)
    requires Split(v, input)
    ensures Split(AnalyzeListings(v, env, input, ls, watch), input)
    decreases |ls|
  {
    if ls != [] {
      var v' := if watch then v else v.(programsCreated := v.programsCreated + [ls[0].tsConfig]);
      SplitEach(v', env, input, ls[0].files, TypingOf(ls[0].tsConfig, watch));
      SplitListings(AnalyzeListing(v, env, input, ls[0], watch), env, input, ls[1..], watch);
    }
  }

  /** What one program does to one file. */
  lemma {:induction false} EachFile(v: View, env: Env, input: JsTsFiles, fs: seq<FileName>, typing: Typing, f: FileName)
    requires Split(v, input) && f in input
    ensures var v' := AnalyzeEach(v, env, input, fs, typing);
            if f in v.pendingFiles && f in fs
            then f !in v'.pendingFiles && f in v'.files && v'.files[f] == OutputFor(env, input, f, typing)
            else (f in v'.pendingFiles <==> f in v.pendingFiles)
                 && (f in v.files ==> f in v'.files && v'.files[f] == v.files[f])
    decreases |fs|
  {
    if fs != [] {
      var v1 := AnalyzeOne(v, env, input, fs[0], typing);
      WithoutMembers(v.pendingFiles, fs[0]);
      SplitStep(v, env, input, fs[0], typing);
      EachFile(v1, env, input, fs[1..], typing, f);
    }
  }

  /** Every file gets the output of the first program listing it, or stays pending. */
  lemma {:induction false} ListingsFile(v: View, env: Env, input: JsTsFiles, ls: seq<Listing>, watch: bool, f: FileName)
    requires Split(v, input) && f in input
    ensures var v' := AnalyzeListings(v, env, input, ls, watch);
            var first := FirstListing(ls, f);
            if f in v.pendingFiles && first.Some?
            then f in v'.files && v'.files[f] == OutputFor(env, input, f, TypingOf(first.value, watch))
            else (f in v'.pendingFiles <==> f in v.pendingFiles)
                 && (f in v.files ==> f in v'.files && v'.files[f] == v.files[f])
    decreases |ls|
  {
    if ls != [] {
      var typing := TypingOf(ls[0].tsConfig, watch);
      var v' := if watch then v else v.(programsCreated := v.programsCreated + [ls[0].tsConfig]);
      var v1 := AnalyzeListing(v, env, input, ls[0], watch);
      EachFile(v', env, input, ls[0].files, typing, f);
      SplitEach(v', env, input, ls[0].files, typing);
      ListingsFile(v1, env, input, ls[1..], watch, f);
    }
  }

  /** The names that no listing holds, in order. */
  function Unlisted(names: seq<FileName>, ls: seq<Listing>): seq<FileName> {
    if names == [] then []
    else if FirstListing(ls, names[0]).None? then [names[0]] + Unlisted(names[1..], ls)
    else Unlisted(names[1..], ls)
  }

  function Outside(names: seq<FileName>, fs: seq<FileName>): seq<FileName> {
    if names == [] then []
    else if names[0] in fs then Outside(names[1..], fs)
    else [names[0]] + Outside(names[1..], fs)
  }

  lemma {:induction false} OutsideNone(names: seq<FileName>)
    ensures Outside(names, []) == names
  {
    if names != [] {
      OutsideNone(names[1..]);
    }
  }

  lemma {:induction false} OutsideStep(names: seq<FileName>, fs: seq<FileName>)
    requires fs != []
    ensures Outside(names, fs) == Outside(Without(names, fs[0]), fs[1..])
  {
    if names != [] {
      OutsideStep(names[1..], fs);
      assert names[0] in fs <==> names[0] == fs[0] || names[0] in fs[1..];
    }
  }

  lemma {:induction false} UnlistedNone(names: seq<FileName>)
    ensures Unlisted(names, []) == names
  {
    if names != [] {
      UnlistedNone(names[1..]);
    }
  }

  lemma {:induction false} UnlistedStep(names: seq<FileName>, ls: seq<Listing>)
    requires ls != []
    ensures Unlisted(names, ls) == Unlisted(Outside(names, ls[0].files), ls[1..])
  {
    if names != [] {
      UnlistedStep(names[1..], ls);
    }
  }

  lemma {:induction false} EachPending(v: View, env: Env, input: JsTsFiles, fs: seq<FileName>, typing: Typing)
    requires forall f :: f in v.pendingFiles ==> f in input
    ensures var pending := AnalyzeEach(v, env, input, fs, typing).pendingFiles;
            pending == Outside(v.pendingFiles, fs) && forall f :: f in pending ==> f in input
    decreases |fs|
  {
    if fs == [] {
      OutsideNone(v.pendingFiles);
    } else {
      WithoutMembers(v.pendingFiles, fs[0]);
      WithoutOther(v.pendingFiles, fs[0]);
      OutsideStep(v.pendingFiles, fs);
      EachPending(AnalyzeOne(v, env, input, fs[0], typing), env, input, fs[1..], typing);
    }
  }

  lemma {:induction false} WithoutOther(s: seq<FileName>, f: FileName)
    ensures f !in s ==> Without(s, f) == s
  {
    if s != [] {
      WithoutOther(s[1..], f);
    }
  }

  /** Over every run: what stays pending are the files that no program lists, in the order they had. */
  lemma {:induction false} PendingInOrder(v: View, env: Env, input: JsTsFiles, ls: seq<Listing>, watch: bool)
    requires forall f :: f in v.pendingFiles ==> f in input
    ensures AnalyzeListings(v, env, input, ls, watch).pendingFiles == Unlisted(v.pendingFiles, ls)
    decreases |ls|
  {
    if ls == [] {
      UnlistedNone(v.pendingFiles);
    } else {
      var v' := if watch then v else v.(programsCreated := v.programsCreated + [ls[0].tsConfig]);
      EachPending(v', env, input, ls[0].files, TypingOf(ls[0].tsConfig, watch));
      UnlistedStep(v.pendingFiles, ls);
      PendingInOrder(AnalyzeListing(v, env, input, ls[0], watch), env, input, ls[1..], watch);
    }
  }

  lemma UnlistedInOrder(start: View, env: Env, input: JsTsFiles, met: seq<Listing>, rest: seq<Listing>, watch: bool)
    requires Split(start, input)
    requires rest != [] ==> AnalyzeListings(start, env, input, met, watch).pendingFiles == []
    ensures AnalyzeListings(start, env, input, met, watch).pendingFiles == Unlisted(start.pendingFiles, met + rest)
  {
    PendingInOrder(start, env, input, met, watch);
    UnlistedByMore(start.pendingFiles, met, rest);
  }

  lemma {:induction false} UnlistedByMore(names: seq<FileName>, met: seq<Listing>, rest: seq<Listing>)
    requires rest != [] ==> Unlisted(names, met) == []
    ensures Unlisted(names, met + rest) == Unlisted(names, met)
  {
    assert met + [] == met;
    if names != [] && rest != [] {
      FirstListingAppend(met, rest, names[0]);
      UnlistedByMore(names[1..], met, rest);
    }
  }

  /** `programs` and `programCount` of `program.ts`. Identifiers are the counter's values. */
  class ProgramTable {
    var programs: map<nat, TsConfig>
    var programCount: nat

    /** Every identifier in use was handed out before. */
    ghost predicate Valid()
      reads this
    {
      forall id :: id in programs ==> id <= programCount
    }

    method NextId() returns (id: nat)
      modifies this`programCount
      ensures id == programCount == old(programCount) + 1
    {
      programCount := programCount + 1;
      id := programCount;
    }

    method CreateAndSaveProgram(env: Env, tsConfig: TsConfig) returns (program: Option<ProgramInfo>, programId: nat)
      requires Valid()
      modifies this
      ensures Valid() && program == env.createProgram(tsConfig)
      ensures program.None? ==> programs == old(programs) && programCount == old(programCount)
      ensures program.Some? ==>
        && programId !in old(programs) && programId == programCount == old(programCount) + 1
        && programs == old(programs)[programId := tsConfig]
        && GetProgramById(programId) == Some(tsConfig)
    {
      program, programId := env.createProgram(tsConfig), 0;
      if program.Some? {
        programId := NextId();
        programs := programs[programId := tsConfig];
      }
    }

    /** `None` stands for the error that is thrown. */
    function GetProgramById(programId: nat): Option<TsConfig>
      reads this`programs
    {
      if programId in programs then Some(programs[programId]) else None
    }

    method DeleteProgram(programId: nat)
      requires Valid()
      modifies this`programs
      ensures Valid() && programs == old(programs) - {programId}
      ensures GetProgramById(programId) == None
    {
      programs := programs - {programId};
    }
  }

  /** How a file analysis is asked to obtain types. */
  datatype Via = ByProgram(id: nat) | ByTsConfig(t: TsConfig) | Plain
  {
    function Resolve(programs: map<nat, TsConfig>): Typing {
      match this
      case ByProgram(id) => if id in programs then Typed(programs[id]) else MissingProgram
      case ByTsConfig(t) => Watched(t)
      case Plain => Untyped
    }
  }

  /** The results and the pending files, shared by all phases. */
  class Analysis {
    var files: map<FileName, Output>
    var withProgram: bool
    var withWatchProgram: bool
    var filesWithoutTypeChecking: seq<FileName>
    var programsCreated: seq<TsConfig>
    var pendingFiles: seq<FileName>
    ghost var calls: seq<FileName>

    ghost function Now(): View
      reads this
    {
      View(files, pendingFiles, calls, programsCreated)
    }

    constructor ()
      ensures Now() == View(map[], [], [], []) && filesWithoutTypeChecking == []
      ensures !withProgram && !withWatchProgram
    {
      files, withProgram, withWatchProgram := map[], false, false;
      filesWithoutTypeChecking, programsCreated, pendingFiles, calls := [], [], [], [];
    }

    method AnalyzeFile(env: Env, input: JsTsFiles, f: FileName, via: Via, table: ProgramTable) returns (out: Output)
      requires f in input
      modifies this`calls
      ensures calls == old(calls) + [f]
      ensures out == OutputFor(env, input, f, via.Resolve(table.programs))
    {
      calls := calls + [f];
      var typing := Untyped;
      match via {
        case ByProgram(id) =>
          var program := table.GetProgramById(id);
          typing := if program.Some? then Typed(program.value) else MissingProgram;
        case ByTsConfig(t) => typing := Watched(t);
        case Plain =>
      }
      out := OutputFor(env, input, f, typing);
    }

    /** The loop over the files of a program: only requested and still pending ones are analysed. */
    method AnalyzeRequested(env: Env, input: JsTsFiles, filenames: seq<FileName>, via: Via, table: ProgramTable)
      modifies this`files, this`pendingFiles, this`calls
      ensures Now() == AnalyzeEach(old(Now()), env, input, filenames, via.Resolve(table.programs))
    {
      ghost var typing := via.Resolve(table.programs);
      for i := 0 to |filenames|
        invariant AnalyzeEach(Now(), env, input, filenames[i..], typing)
          == AnalyzeEach(old(Now()), env, input, filenames, typing)
      {
        var f := filenames[i];
        assert filenames[i..][0] == f && filenames[i..][1..] == filenames[i + 1..];
        if f in input && f in pendingFiles {
          var out := AnalyzeFile(env, input, f, via, table);
          files := files[f := out];
          pendingFiles := Without(pendingFiles, f);
        }
      }
    }
  }

  /** The recursive `analyzeProgram`; an unusable tsconfig is skipped. */
  method AnalyzeProgram(env: Env, input: JsTsFiles, tsConfig: TsConfig, a: Analysis, table: ProgramTable,
      ghost rank: TsConfig -> nat)
    requires Acyclic(env, rank) && table.Valid()
    modifies a`files, a`pendingFiles, a`calls, a`programsCreated, table
    ensures a.Now() == AnalyzeListings(old(a.Now()), env, input, Listings(env, rank, tsConfig), false)
    ensures table.Valid() && table.programs == old(table.programs) && table.programCount >= old(table.programCount)
    decreases rank(tsConfig)
  {
    var program, programId := table.CreateAndSaveProgram(env, tsConfig);
    if program.None? {
      return;
    }
    var filenames, projectReferences := program.value.files, program.value.projectReferences;
    a.programsCreated := a.programsCreated + [tsConfig];
    a.AnalyzeRequested(env, input, filenames, ByProgram(programId), table);
    table.DeleteProgram(programId);
    assert table.programs == old(table.programs);
    ghost var own := a.Now();
    ghost var bound := rank(tsConfig);
    ghost var below := ListingsOfAll(env, rank, projectReferences, bound);
    assert Listings(env, rank, tsConfig) == [Listing(tsConfig, filenames)] + below;
    for j := 0 to |projectReferences|
      invariant AnalyzeListings(a.Now(), env, input, ListingsOfAll(env, rank, projectReferences[j..], bound), false)
        == AnalyzeListings(own, env, input, below, false)
      invariant table.Valid() && table.programs == old(table.programs) && table.programCount >= old(table.programCount)
    {
      var reference := projectReferences[j];
      ghost var first := Listings(env, rank, reference);
      ghost var rest := ListingsOfAll(env, rank, projectReferences[j + 1..], bound);
      assert projectReferences[j..][0] == reference && projectReferences[j..][1..] == projectReferences[j + 1..];
      AnalyzeListingsAppend(a.Now(), env, input, first, rest, false);
      AnalyzeProgram(env, input, reference, a, table, rank);
    }
  }

  /** All programs of a run that stops nowhere. */
  ghost function ProgramListings(env: Env, rank: TsConfig -> nat, ts: seq<TsConfig>): seq<Listing>
    requires Acyclic(env, rank)
  {
    if ts == [] then [] else Listings(env, rank, ts[0]) + ProgramListings(env, rank, ts[1..])
  }

  lemma {:induction false} ProgramListingsAppend(env: Env, rank: TsConfig -> nat, a: seq<TsConfig>, b: seq<TsConfig>)
    requires Acyclic(env, rank)
    ensures ProgramListings(env, rank, a + b) == ProgramListings(env, rank, a) + ProgramListings(env, rank, b)
  {
    if a == [] {
      assert a + b == b;
    } else {
      assert (a + b)[1..] == a[1..] + b;
      ProgramListingsAppend(env, rank, a[1..], b);
    }
  }

  ghost predicate LeavesPending(start: View, env: Env, input: JsTsFiles, rank: TsConfig -> nat, ts: seq<TsConfig>)
    requires Acyclic(env, rank)
  {
    AnalyzeListings(start, env, input, ProgramListings(env, rank, ts), false).pendingFiles != []
  }

  /** The phase stops behind the first tsconfig that leaves no file pending. */
  method AnalyzeWithProgram(env: Env, input: JsTsFiles, tsConfigs: seq<TsConfig>, a: Analysis, table: ProgramTable,
      ghost rank: TsConfig -> nat)
    returns (ghost used: nat)
    requires Acyclic(env, rank) && table.Valid()
    modifies a`files, a`pendingFiles, a`calls, a`programsCreated, table
    ensures used <= |tsConfigs| && (used < |tsConfigs| ==> used > 0 && a.pendingFiles == [])
    ensures forall i :: 0 < i < used ==> LeavesPending(old(a.Now()), env, input, rank, tsConfigs[..i])
    ensures a.Now() == AnalyzeListings(old(a.Now()), env, input, ProgramListings(env, rank, tsConfigs[..used]), false)
    ensures table.Valid() && table.programs == old(table.programs) && table.programCount >= old(table.programCount)
  {
    for i := 0 to |tsConfigs|
      invariant a.Now() == AnalyzeListings(old(a.Now()), env, input, ProgramListings(env, rank, tsConfigs[..i]), false)
      invariant forall k :: 0 < k <= i ==> LeavesPending(old(a.Now()), env, input, rank, tsConfigs[..k])
      invariant table.Valid() && table.programs == old(table.programs) && table.programCount >= old(table.programCount)
    {
      ghost var done, own := ProgramListings(env, rank, tsConfigs[..i]), Listings(env, rank, tsConfigs[i]);
      AnalyzeProgram(env, input, tsConfigs[i], a, table, rank);
      AnalyzeListingsAppend(old(a.Now()), env, input, done, own, false);
      ProgramListingsAppend(env, rank, tsConfigs[..i], [tsConfigs[i]]);
      assert tsConfigs[..i] + [tsConfigs[i]] == tsConfigs[..i + 1] && [tsConfigs[i]][1..] == [];
      assert ProgramListings(env, rank, [tsConfigs[i]]) == own;
      if a.pendingFiles == [] {
        return i + 1;
      }
    }
    return |tsConfigs|;
  }

  /** The watch programs up to the first unreadable tsconfig. */
  function WatchListings(env: Env, ts: seq<TsConfig>): seq<Listing> {
    if ts == [] then []
    else match env.createProgramOptions(ts[0])
      case None => []
      case Some(rootNames) => [Listing(ts[0], rootNames)] + WatchListings(env, ts[1..])
  }

  lemma {:induction false} WatchListingsAt(env: Env, ts: seq<TsConfig>)
    requires Readable(env, ts)
    ensures |WatchListings(env, ts)| == |ts|
    ensures forall i :: 0 <= i < |ts| ==>
      WatchListings(env, ts)[i] == Listing(ts[i], env.createProgramOptions(ts[i]).value)
  {
    if ts != [] {
      WatchListingsAt(env, ts[1..]);
    }
  }

  predicate Readable(env: Env, ts: seq<TsConfig>) {
    forall i :: 0 <= i < |ts| ==> env.createProgramOptions(ts[i]).Some?
  }

  lemma {:induction false} WatchListingsAppend(env: Env, a: seq<TsConfig>, b: seq<TsConfig>)
    requires Readable(env, a)
    ensures WatchListings(env, a + b) == WatchListings(env, a) + WatchListings(env, b)
  {
    if a == [] {
      assert a + b == b;
    } else {
      assert (a + b)[1..] == a[1..] + b;
      WatchListingsAppend(env, a[1..], b);
    }
  }

  /** Here an unreadable tsconfig ends the whole analysis with an exception: `ok` is false. */
  method AnalyzeWithWatchProgram(env: Env, input: JsTsFiles, tsConfigs: seq<TsConfig>, a: Analysis, table: ProgramTable)
    returns (ok: bool, ghost used: nat)
    modifies a`files, a`pendingFiles, a`calls
    ensures used <= |tsConfigs| && Readable(env, tsConfigs[..used])
    ensures if ok then used < |tsConfigs| ==> a.pendingFiles == []
            else used < |tsConfigs| && env.createProgramOptions(tsConfigs[used]).None?
                 && (used > 0 ==> a.pendingFiles != [])
    ensures a.Now() == AnalyzeListings(old(a.Now()), env, input, WatchListings(env, tsConfigs[..used]), true)
  {
    for i := 0 to |tsConfigs|
      invariant Readable(env, tsConfigs[..i]) && (i > 0 ==> a.pendingFiles != [])
      invariant a.Now() == AnalyzeListings(old(a.Now()), env, input, WatchListings(env, tsConfigs[..i]), true)
    {
      var options := env.createProgramOptions(tsConfigs[i]);
      if options.None? {
        return false, i;
      }
      ghost var before, done := a.Now(), WatchListings(env, tsConfigs[..i]);
      ghost var own := [Listing(tsConfigs[i], options.value)];
      a.AnalyzeRequested(env, input, options.value, ByTsConfig(tsConfigs[i]), table);
      assert own[1..] == [];
      assert a.Now() == AnalyzeListings(before, env, input, own, true);
      AnalyzeListingsAppend(old(a.Now()), env, input, done, own, true);
      WatchListingsAppend(env, tsConfigs[..i], [tsConfigs[i]]);
      assert tsConfigs[..i] + [tsConfigs[i]] == tsConfigs[..i + 1] && [tsConfigs[i]][1..] == [];
      assert WatchListings(env, [tsConfigs[i]]) == own;
      if a.pendingFiles == [] {
        return true, i + 1;
      }
    }
    return true, |tsConfigs|;
  }

  /** The last phase; `pendingFiles` is only read. */
  method AnalyzeWithoutProgram(env: Env, input: JsTsFiles, a: Analysis, table: ProgramTable)
    requires forall f :: f in a.pendingFiles ==> f in input
    modifies a`files, a`filesWithoutTypeChecking, a`calls
    ensures a.filesWithoutTypeChecking == old(a.filesWithoutTypeChecking) + a.pendingFiles
    ensures a.calls == old(a.calls) + a.pendingFiles
    ensures forall f :: f in a.files <==> f in old(a.files) || f in a.pendingFiles
    ensures forall f :: f in a.files ==>
      a.files[f] == if f in a.pendingFiles then OutputFor(env, input, f, Untyped) else old(a.files)[f]
  {
    var filenames := a.pendingFiles;
    for i := 0 to |filenames|
      invariant a.filesWithoutTypeChecking == old(a.filesWithoutTypeChecking) + filenames[..i]
      invariant a.calls == old(a.calls) + filenames[..i]
      invariant forall f :: f in a.files <==> f in old(a.files) || f in filenames[..i]
      invariant forall f :: f in a.files ==>
        a.files[f] == if f in filenames[..i] then OutputFor(env, input, f, Untyped) else old(a.files)[f]
    {
      var filename := filenames[i];
      a.filesWithoutTypeChecking := a.filesWithoutTypeChecking + [filename];
      var out := a.AnalyzeFile(env, input, filename, Plain, table);
      a.files := a.files[filename := out];
      assert filenames[..i + 1] == filenames[..i] + [filename];
    }
  }

  /** The typing a file ends up with: its first program among all of them, or none. */
  function FinalTyping(ls: seq<Listing>, f: FileName, watch: bool): Typing {
    match FirstListing(ls, f)
    case Some(t) => TypingOf(t, watch)
    case None => Untyped
  }

  /** What the output says: every requested file is there, with the right types. */
  ghost predicate Complete(files: map<FileName, Output>, filesWithoutTypeChecking: seq<FileName>,
      env: Env, input: JsTsFiles, ls: seq<Listing>, watch: bool)
  {
    && files.Keys == input.Keys
    && (forall f :: f in input ==> files[f] == OutputFor(env, input, f, FinalTyping(ls, f, watch)))
    && (forall f :: f in filesWithoutTypeChecking <==> f in input && FirstListing(ls, f).None?)
  }

  /** Every requested file is analysed once, in some order. */
  ghost predicate EachOnce(calls: seq<FileName>, input: JsTsFiles) {
    NoDuplicates(calls) && forall f :: f in calls <==> f in input
  }

  lemma SplitCalls(v: View, input: JsTsFiles)
    requires Split(v, input)
    ensures EachOnce(v.calls + v.pendingFiles, input)
  {
    var all := v.calls + v.pendingFiles;
    forall i, j | 0 <= i < j < |all| ensures all[i] != all[j] {
      if i < |v.calls| <= j {
        assert all[j] == v.pendingFiles[j - |v.calls|] && all[j] in v.pendingFiles;
        assert all[i] in v.calls;
      }
    }
  }

  /** One file after the program phases, which met the listings `used` and stopped only when none was pending. */
  lemma FileAfterPhases(start: View, env: Env, input: JsTsFiles, used: seq<Listing>, rest: seq<Listing>, watch: bool,
      f: FileName)
    requires Split(start, input) && start.files == map[] && f in input
    requires rest != [] ==> AnalyzeListings(start, env, input, used, watch).pendingFiles == []
    ensures var v := AnalyzeListings(start, env, input, used, watch);
            var typing := FinalTyping(used + rest, f, watch);
            && (f in v.pendingFiles <==> FirstListing(used + rest, f).None?)
            && (f !in v.pendingFiles ==> f in v.files && v.files[f] == OutputFor(env, input, f, typing))
  {
    SplitListings(start, env, input, used, watch);
    ListingsFile(start, env, input, used, watch, f);
    FirstListingAppend(used, rest, f);
    if rest == [] {
      assert FirstListing(rest, f).None?;
    }
  }

  /** What the phase with type information leaves. */
  lemma TypedPhase(start: View, v: View, env: Env, input: JsTsFiles, met: seq<Listing>, rest: seq<Listing>, watch: bool)
    requires Split(start, input) && start.programsCreated == []
    requires v == AnalyzeListings(start, env, input, met, watch) && (rest != [] ==> v.pendingFiles == [])
    ensures forall f :: f in v.pendingFiles ==> f in input
    ensures EachOnce(v.calls + v.pendingFiles, input)
    ensures v.programsCreated == if watch then [] else TsConfigs(met)
    ensures v.pendingFiles == Unlisted(start.pendingFiles, met + rest)
  {
    SplitListings(start, env, input, met, watch);
    CreatedPrograms(start, env, input, met, watch);
    SplitCalls(v, input);
    UnlistedInOrder(start, env, input, met, rest, watch);
    assert [] + TsConfigs(met) == TsConfigs(met);
  }

  lemma PhasesComplete(start: View, files: map<FileName, Output>, env: Env, input: JsTsFiles,
      used: seq<Listing>, rest: seq<Listing>, watch: bool)
    requires Split(start, input) && start.files == map[]
    requires rest != [] ==> AnalyzeListings(start, env, input, used, watch).pendingFiles == []
    requires var v := AnalyzeListings(start, env, input, used, watch);
             && (forall f :: f in files <==> f in v.files || f in v.pendingFiles)
             && (forall f :: f in v.pendingFiles && f in input ==> files[f] == OutputFor(env, input, f, Untyped))
             && (forall f :: f in v.files && f !in v.pendingFiles ==> files[f] == v.files[f])
    ensures var pending := AnalyzeListings(start, env, input, used, watch).pendingFiles;
            Complete(files, pending, env, input, used + rest, watch)
  {
    SplitListings(start, env, input, used, watch);
    forall f | f in input
      ensures f in files && files[f] == OutputFor(env, input, f, FinalTyping(used + rest, f, watch))
      ensures f in AnalyzeListings(start, env, input, used, watch).pendingFiles <==> FirstListing(used + rest, f).None?
    {
      FileAfterPhases(start, env, input, used, rest, watch, f);
    }
  }

  /** The watch variant stops with an exception at tsconfig `u`: it cannot be read, and it is the first one or some
      requested file is listed by none of those before it. */
  ghost predicate WatchFailsAt(env: Env, input: JsTsFiles, ts: seq<TsConfig>, u: nat) {
    && u < |ts| && Readable(env, ts[..u]) && env.createProgramOptions(ts[u]).None?
    && (u == 0 || exists f :: f in input && FirstListing(WatchListings(env, ts[..u]), f).None?)
  }

  ghost predicate WatchFails(env: Env, input: JsTsFiles, ts: seq<TsConfig>) {
    exists u :: 0 <= u < |ts| && WatchFailsAt(env, input, ts, u)
  }

  lemma PendingIsUnlisted(start: View, env: Env, input: JsTsFiles, ls: seq<Listing>, watch: bool)
    requires Split(start, input) && start.files == map[]
    ensures AnalyzeListings(start, env, input, ls, watch).pendingFiles != [] <==>
      exists f :: f in input && FirstListing(ls, f).None?
  {
    var pending := AnalyzeListings(start, env, input, ls, watch).pendingFiles;
    SplitListings(start, env, input, ls, watch);
    assert ls + [] == ls;
    forall f | f in input ensures f in pending <==> FirstListing(ls, f).None? {
      FileAfterPhases(start, env, input, ls, [], watch, f);
    }
    if pending != [] {
      assert pending[0] in pending;
    }
  }

  /** Where the watch variant stopped tells whether it had to fail. */
  lemma WatchFailsIff(start: View, env: Env, input: JsTsFiles, ts: seq<TsConfig>, used: nat, ok: bool)
    requires Split(start, input) && start.files == map[] && start.pendingFiles != []
    requires used <= |ts| && Readable(env, ts[..used])
    requires var pending := AnalyzeListings(start, env, input, WatchListings(env, ts[..used]), true).pendingFiles;
             if ok then used < |ts| ==> pending == []
             else used < |ts| && env.createProgramOptions(ts[used]).None? && (used > 0 ==> pending != [])
    ensures !ok <==> WatchFails(env, input, ts)
  {
    PendingIsUnlisted(start, env, input, WatchListings(env, ts[..used]), true);
    if !ok {
      assert WatchFailsAt(env, input, ts, used);
    } else {
      forall u | 0 <= u < |ts| ensures !WatchFailsAt(env, input, ts, u) {
        if u < used {
          assert ts[..used][u] == ts[u];
        } else if used < |ts| {
          forall f | f in input ensures FirstListing(WatchListings(env, ts[..u]), f).Some? {
            assert ts[..u] == ts[..used] + ts[used..u];
            WatchListingsAppend(env, ts[..used], ts[used..u]);
            FirstListingAppend(WatchListings(env, ts[..used]), WatchListings(env, ts[used..u]), f);
          }
        }
      }
    }
  }

  ghost predicate AllListed(env: Env, input: JsTsFiles, rank: TsConfig -> nat, ts: seq<TsConfig>)
    requires Acyclic(env, rank)
  {
    forall f :: f in input ==> FirstListing(ProgramListings(env, rank, ts), f).Some?
  }

  /** The first `u` tsconfigs, and none of the shorter beginnings, list every requested file, or `u` is all of them. */
  ghost predicate StopsAt(env: Env, input: JsTsFiles, rank: TsConfig -> nat, ts: seq<TsConfig>, u: nat)
    requires Acyclic(env, rank)
  {
    && u <= |ts| && (u < |ts| ==> u > 0 && AllListed(env, input, rank, ts[..u]))
    && forall i :: 0 < i < u ==> !AllListed(env, input, rank, ts[..i])
  }

  /** The programs on record are exactly those met up to there, in order. */
  ghost predicate Created(created: seq<TsConfig>, env: Env, input: JsTsFiles, rank: TsConfig -> nat, ts: seq<TsConfig>,
      u: nat)
    requires Acyclic(env, rank)
  {
    StopsAt(env, input, rank, ts, u) && created == TsConfigs(ProgramListings(env, rank, ts[..u]))
  }

  lemma AllListedIff(start: View, env: Env, input: JsTsFiles, rank: TsConfig -> nat, ts: seq<TsConfig>)
    requires Acyclic(env, rank) && Split(start, input) && start.files == map[]
    ensures AllListed(env, input, rank, ts) <==> !LeavesPending(start, env, input, rank, ts)
  {
    PendingIsUnlisted(start, env, input, ProgramListings(env, rank, ts), false);
  }

  /** Where the phase stopped is where no requested file is unlisted. */
  lemma StopsAtIff(start: View, env: Env, input: JsTsFiles, rank: TsConfig -> nat, ts: seq<TsConfig>, u: nat)
    requires Acyclic(env, rank) && Split(start, input) && start.files == map[] && u <= |ts|
    ensures StopsAt(env, input, rank, ts, u) <==>
      (u < |ts| ==> u > 0 && !LeavesPending(start, env, input, rank, ts[..u]))
      && forall i :: 0 < i < u ==> LeavesPending(start, env, input, rank, ts[..i])
  {
    forall i | 0 < i <= u
      ensures AllListed(env, input, rank, ts[..i]) <==> !LeavesPending(start, env, input, rank, ts[..i])
    {
      AllListedIff(start, env, input, rank, ts[..i]);
    }
  }

  /** All programs of the run, in either mode. */
  ghost function AllListings(env: Env, rank: TsConfig -> nat, ts: seq<TsConfig>, watch: bool): seq<Listing>
    requires Acyclic(env, rank)
  {
    if watch then WatchListings(env, ts) else ProgramListings(env, rank, ts)
  }

  /** The phase with type information; `ok` is false when the watch variant throws. */
  method AnalyzeWithTypes(env: Env, input: JsTsFiles, tsConfigs: seq<TsConfig>, watchProgram: bool,
      a: Analysis, table: ProgramTable, ghost rank: TsConfig -> nat)
    returns (ok: bool, ghost met: seq<Listing>, ghost rest: seq<Listing>, ghost used: nat)
    requires Acyclic(env, rank) && table.Valid()
    modifies a, table
    ensures table.Valid() && table.programs == old(table.programs)
    ensures a.withWatchProgram == (watchProgram || old(a.withWatchProgram))
    ensures a.withProgram == (!watchProgram || old(a.withProgram))
    ensures a.filesWithoutTypeChecking == old(a.filesWithoutTypeChecking)
    ensures a.Now() == AnalyzeListings(old(a.Now()), env, input, met, watchProgram)
    ensures ok ==>
      met + rest == AllListings(env, rank, tsConfigs, watchProgram) && (rest != [] ==> a.pendingFiles == [])
    ensures !ok ==> watchProgram
    ensures Split(old(a.Now()), input) && old(a.files) == map[] && old(a.pendingFiles) != [] && watchProgram ==>
      (!ok <==> WatchFails(env, input, tsConfigs))
    ensures Split(old(a.Now()), input) && old(a.files) == map[] && !watchProgram ==>
      StopsAt(env, input, rank, tsConfigs, used) && met == ProgramListings(env, rank, tsConfigs[..used])
  {
    ghost var start := a.Now();
    if watchProgram {
      a.withWatchProgram := true;
      ok, used := AnalyzeWithWatchProgram(env, input, tsConfigs, a, table);
      met, rest := WatchListings(env, tsConfigs[..used]), WatchListings(env, tsConfigs[used..]);
      WatchListingsAppend(env, tsConfigs[..used], tsConfigs[used..]);
      if Split(start, input) && start.files == map[] && start.pendingFiles != [] {
        WatchFailsIff(start, env, input, tsConfigs, used, ok);
      }
    } else {
      a.withProgram := true;
      ok := true;
      used := AnalyzeWithProgram(env, input, tsConfigs, a, table, rank);
      met, rest := ProgramListings(env, rank, tsConfigs[..used]), ProgramListings(env, rank, tsConfigs[used..]);
      ProgramListingsAppend(env, rank, tsConfigs[..used], tsConfigs[used..]);
      if Split(start, input) && start.files == map[] {
        StopsAtIff(start, env, input, rank, tsConfigs, used);
      }
    }
    assert tsConfigs[..used] + tsConfigs[used..] == tsConfigs;
  }

  /** Both phases, for an analysis that has not begun; `ok` is false when the watch variant throws. */
  method AnalyzePending(env: Env, input: JsTsFiles, tsConfigs: seq<TsConfig>, isSonarlint: bool, a: Analysis,
      table: ProgramTable, ghost rank: TsConfig -> nat)
    returns (ok: bool, ghost used: nat)
    requires Acyclic(env, rank) && table.Valid()
    requires Split(a.Now(), input) && a.files == map[] && a.pendingFiles != []
    requires a.programsCreated == [] && a.filesWithoutTypeChecking == [] && !a.withProgram && !a.withWatchProgram
    modifies a, table
    ensures table.Valid() && table.programs == old(table.programs)
    ensures !ok <==> isSonarlint && WatchFails(env, input, tsConfigs)
    ensures ok ==>
      var ls := AllListings(env, rank, tsConfigs, isSonarlint);
      && Complete(a.files, a.filesWithoutTypeChecking, env, input, ls, isSonarlint)
      && EachOnce(a.calls, input)
      && a.filesWithoutTypeChecking == Unlisted(old(a.pendingFiles), ls)
      && (if isSonarlint then a.programsCreated == []
          else Created(a.programsCreated, env, input, rank, tsConfigs, used))
    ensures a.withWatchProgram == isSonarlint && a.withProgram == !isSonarlint
  {
    ghost var start := a.Now();
    ghost var met, rest;
    ok, met, rest, used := AnalyzeWithTypes(env, input, tsConfigs, isSonarlint, a, table, rank);
    if ok {
      TypedPhase(start, a.Now(), env, input, met, rest, isSonarlint);
      AnalyzeWithoutProgram(env, input, a, table);
      PhasesComplete(start, a.files, env, input, met, rest, isSonarlint);
      assert [] + a.pendingFiles == a.pendingFiles;
    }
  }

  /** The whole analysis. `names` are the keys of `input` and `tsConfigs` the configurations found for the project;
      the result is `None` when the watch phase throws. */
  method AnalyzeProject(env: Env, input: JsTsFiles, names: seq<FileName>, tsConfigs: seq<TsConfig>, isSonarlint: bool,
      table: ProgramTable, ghost rank: TsConfig -> nat)
    returns (results: Option<Analysis>, ghost used: nat)
    requires Acyclic(env, rank) && table.Valid()
    requires NoDuplicates(names) && forall f :: f in names <==> f in input
    modifies table
    ensures table.Valid() && table.programs == old(table.programs)
    ensures results.None? <==> isSonarlint && names != [] && WatchFails(env, input, tsConfigs)
    ensures results.Some? ==>
      var ls := AllListings(env, rank, tsConfigs, isSonarlint);
      var r := results.value;
      && Complete(r.files, r.filesWithoutTypeChecking, env, input, ls, isSonarlint)
      && EachOnce(r.calls, input)
      && r.filesWithoutTypeChecking == Unlisted(names, ls)
      && (if isSonarlint || names == [] then r.programsCreated == []
          else Created(r.programsCreated, env, input, rank, tsConfigs, used))
    ensures results.Some? ==>
      var r := results.value;
      r.withWatchProgram == (isSonarlint && names != []) && r.withProgram == (!isSonarlint && names != [])
  {
    var a := new Analysis();
    if names == [] {
      assert forall f :: f !in input;
      return Some(a), 0;
    }
    a.pendingFiles := names;
    var ok;
    ok, used := AnalyzePending(env, input, tsConfigs, isSonarlint, a, table, rank);
    results := if ok then Some(a) else None;
  }
}
