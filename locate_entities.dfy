/** The page-pair locator: for every compiled output file of one paper, load
    the diff images of its pages, check each for near-black artifacts, and
    collect per entity every bounding box the extractor finds for that
    entity's hue. A missing diff directory aborts the whole paper; a page
    file whose name does not hold a page number raises. */
module LocateEntities {
  import opened Basics
  import opened Decimal
  import opened Images

  type Path = string
  type EntityId = string

  /** One diff-image directory as the listing yields it: each file name with
      the image loaded from it, in listing order. */
  type Listing = seq<(string, Image)>

  /** `page_images`: page number to image, in insertion order. */
  type PageDict = seq<(int, Image)>

  /** `extract_bounding_boxes(image, page_number, hue)`; its code is not part of this model. */
  type Extractor = (Image, int, real) -> seq<BoundingBox>

  datatype LocationResult = LocationResult(
    locations: map<EntityId, seq<BoundingBox>>,
    shiftedEntities: seq<EntityId>,
    firstShiftedEntity: Option<EntityId>,
    blackPixelsFound: bool)

  /** What a call ends with: a result, `None` for a missing diff directory,
      or the ValueError that `int()` raises on a page name. */
  datatype Outcome =
    | Located(result: LocationResult)
    | DiffDirMissing(path: Path)
    | PageNameInvalid(name: string)

  // ---------------------------------------------------------------------
  // Page names: int(os.path.splitext(name)[0].replace("page-", "")) - 1

  const PAGE_PREFIX := "page-"

  function LastDot(s: string): (r: int)
    ensures -1 <= r < |s|
    ensures r >= 0 ==> s[r] == '.'
    ensures forall j :: r < j < |s| ==> s[j] != '.'
  {
    if s == [] then -1
    else if s[|s| - 1] == '.' then |s| - 1
    else LastDot(s[..|s| - 1])
  }

  /** `os.path.splitext(name)[0]` for a name without directory separators:
      cut at the last dot, unless only dots precede it (a hidden file's
      leading dots are not an extension). */
  function SplitExtRoot(name: string): string {
    var dot := LastDot(name);
    if dot > 0 && exists k :: 0 <= k < dot && name[k] != '.' then name[..dot] else name
  }

  /** `s.replace(pattern, "")`: every occurrence removed, found left to right without overlap. */
  function RemoveAll(s: string, pattern: string): string
    requires |pattern| > 0
    decreases |s|
  {
    if |s| >= |pattern| && s[..|pattern|] == pattern then RemoveAll(s[|pattern|..], pattern)
    else if s == [] then []
    else [s[0]] + RemoveAll(s[1..], pattern)
  }

  /** The 0-based page number stored for a diff image file, or None when `int()` raises. */
  function ParsePageNumber(name: string): Option<int> {
    match ParseInt(RemoveAll(SplitExtRoot(name), PAGE_PREFIX))
    case Some(n) => Some(n - 1)
    case None => None
  }

  lemma {:induction false} RemoveAllAbsent(s: string, pattern: string)
    requires |pattern| > 0
    requires forall i :: 0 <= i < |s| ==> s[i] != pattern[0]
    ensures RemoveAll(s, pattern) == s
    decreases |s|
  {
    if s != [] {
      assert |s| >= |pattern| ==> s[..|pattern|][0] != pattern[0];
      RemoveAllAbsent(s[1..], pattern);
      assert [s[0]] + s[1..] == s;
    }
  }

  lemma RemoveAllLeadingPattern(pattern: string, rest: string)
    requires |pattern| > 0
    ensures RemoveAll(pattern + rest, pattern) == RemoveAll(rest, pattern)
  {
    var s := pattern + rest;
    assert s[..|pattern|] == pattern && s[|pattern|..] == rest;
  }

  lemma SplitExtRootAtLastDot(stem: string, ext: string)
    requires '.' !in ext
    requires |stem| > 0 && stem[0] != '.'
    ensures SplitExtRoot(stem + "." + ext) == stem
  {
    var name := stem + "." + ext;
    LastDotAfter(stem, ext);
    assert name[0] == stem[0];
    assert name[..|stem|] == stem;
  }

  lemma {:induction false} LastDotAfter(s: string, ext: string)
    requires '.' !in ext
    ensures LastDot(s + "." + ext) == |s|
    decreases |ext|
  {
    var t := s + "." + ext;
    if ext != [] {
      assert ext[|ext| - 1] in ext;
      assert t[..|t| - 1] == s + "." + ext[..|ext| - 1];
      assert forall c :: c in ext[..|ext| - 1] ==> c in ext;
      LastDotAfter(s, ext[..|ext| - 1]);
    }
  }

  /** `page-<n>.<ext>` is stored under page n - 1. */
  lemma PageNameParses(n: nat, ext: string)
    requires '.' !in ext
    ensures ParsePageNumber(PAGE_PREFIX + NatToString(n) + "." + ext) == Some(n - 1)
  {
    var digits := NatToString(n);
    var stem := PAGE_PREFIX + digits;
    assert PAGE_PREFIX + NatToString(n) + "." + ext == stem + "." + ext;
    SplitExtRootAtLastDot(stem, ext);
    RemoveAllLeadingPattern(PAGE_PREFIX, digits);
    RemoveAllAbsent(digits, PAGE_PREFIX);
    ParseIntToString(n);
    ParsePageNumberSteps(stem + "." + ext, stem, digits, n);
  }

  lemma ParsePageNumberSteps(name: string, stem: string, digits: string, n: int)
    requires SplitExtRoot(name) == stem
    requires RemoveAll(stem, PAGE_PREFIX) == digits
    requires ParseInt(digits) == Some(n)
    ensures ParsePageNumber(name) == Some(n - 1)
  {
  }

  /** A listed diff image whose stem is no integer once `page-` is removed
      makes the whole call fail: it is never skipped. */
  lemma NonIntegerPageNameStopsLocate(outputs: seq<Path>, dirs: map<Path, Listing>, hues: seq<(EntityId, real)>, extract: Extractor, i: nat, j: nat)
    requires i < |outputs| && outputs[i] in dirs && j < |dirs[outputs[i]]|
    requires ParseInt(RemoveAll(SplitExtRoot(dirs[outputs[i]][j].0), PAGE_PREFIX)).None?
    ensures !LocateOutcome(outputs, dirs, hues, extract, ParsePageNumber).Located?
  {
    var listing := dirs[outputs[i]];
    assert ParsePageNumber(listing[j].0).None?;
    assert !AllNamesParse(listing, ParsePageNumber);
    LoadPagesSucceedsIff(listing, ParsePageNumber);
    assert !AllFilesLoad(outputs, dirs, ParsePageNumber);
    LocateSucceedsIff(outputs, dirs, hues, extract, ParsePageNumber);
  }

  /** For instance `page-x.png`. */
  lemma NonIntegerPageNameFails()
    ensures ParsePageNumber("page-x.png") == None
  {
    SplitExtRootAtLastDot("page-x", "png");
    assert "page-x.png" == "page-x" + "." + "png";
    RemoveAllLeadingPattern(PAGE_PREFIX, "x");
    assert PAGE_PREFIX + "x" == "page-x";
    RemoveAllAbsent("x", PAGE_PREFIX);
    ParseIntRejectsForeignChar("x", 0);
  }

  // ---------------------------------------------------------------------
  // The page dict

  /** `d[k] = v` on an insertion-ordered dict. */
  function DictAssign(d: PageDict, k: int, v: Image): PageDict {
    if k in KeysOf(d) then seq(|d|, i requires 0 <= i < |d| => if d[i].0 == k then (k, v) else d[i])
    else d + [(k, v)]
  }

  /** The keys gain `k`; an existing key keeps its place and takes the new
      image, a new key goes last; every other entry stays; keys stay distinct. */
  lemma DictAssignSpec(d: PageDict, k: int, v: Image)
    ensures KeysOf(DictAssign(d, k, v)) == KeysOf(d) + {k}
    ensures DistinctKeys(d) ==> DistinctKeys(DictAssign(d, k, v))
    ensures |DictAssign(d, k, v)| == if k in KeysOf(d) then |d| else |d| + 1
    ensures forall i :: 0 <= i < |DictAssign(d, k, v)| && DictAssign(d, k, v)[i].0 == k ==> DictAssign(d, k, v)[i].1 == v
    ensures forall i :: 0 <= i < |DictAssign(d, k, v)| && DictAssign(d, k, v)[i].0 != k ==> i < |d| && DictAssign(d, k, v)[i] == d[i]
  {
    var r := DictAssign(d, k, v);
    if k in KeysOf(d) {
      assert forall i :: 0 <= i < |d| ==> r[i].0 == d[i].0;
      assert KeysOf(r) == KeysOf(d);
    } else {
      assert forall i :: 0 <= i < |d| ==> r[i] == d[i];
      assert r[|d|].0 == k;
      assert KeysOf(r) == KeysOf(d) + {k};
    }
  }

  /** How a file name becomes a page number; the locator uses `ParsePageNumber`. */
  type PageNamer = string -> Option<int>

  /** The directory loop: every listed image goes into the page dict under
      its page number; the first name `int()` rejects ends the call. */
  function LoadPages(listing: Listing, parse: PageNamer): Result<PageDict, string>
    decreases |listing|
  {
    if listing == [] then Ok([])
    else
      match LoadPages(listing[..|listing| - 1], parse)
      case Err(name) => Err(name)
      case Ok(d) =>
        var (name, img) := listing[|listing| - 1];
        match parse(name)
        case None => Err(name)
        case Some(p) => Ok(DictAssign(d, p, img))
  }

  /** The image of the last listed file whose name gives page `k`, or -1. */
  function LastIndexOfPage(listing: Listing, parse: PageNamer, k: int): (r: int)
    ensures -1 <= r < |listing|
    ensures r >= 0 ==> parse(listing[r].0) == Some(k)
    ensures forall j :: r < j < |listing| ==> parse(listing[j].0) != Some(k)
  {
    if listing == [] then -1
    else if parse(listing[|listing| - 1].0) == Some(k) then |listing| - 1
    else LastIndexOfPage(listing[..|listing| - 1], parse, k)
  }

  predicate AllNamesParse(listing: Listing, parse: PageNamer) {
    forall j :: 0 <= j < |listing| ==> parse(listing[j].0).Some?
  }

  lemma LoadPagesStep(listing: Listing, parse: PageNamer, j: nat, d: PageDict)
    requires j < |listing| && LoadPages(listing[..j], parse) == Ok(d)
    ensures parse(listing[j].0).None? ==> LoadPages(listing[..j + 1], parse) == Err(listing[j].0)
    ensures parse(listing[j].0).Some? ==>
      LoadPages(listing[..j + 1], parse) == Ok(DictAssign(d, parse(listing[j].0).value, listing[j].1))
  {
    assert listing[..j + 1][..j] == listing[..j];
    assert listing[..j + 1][j] == listing[j];
  }

  /** Loading succeeds exactly when every name parses. */
  lemma {:induction false} LoadPagesSucceedsIff(listing: Listing, parse: PageNamer)
    ensures LoadPages(listing, parse).Ok? <==> AllNamesParse(listing, parse)
    decreases |listing|
  {
    if listing != [] {
      var n := |listing| - 1;
      var prefix := listing[..n];
      LoadPagesSucceedsIff(prefix, parse);
      assert forall j :: 0 <= j < n ==> prefix[j] == listing[j];
      if LoadPages(prefix, parse).Err? {
        assert !AllNamesParse(prefix, parse);
      } else {
        assert AllNamesParse(listing, parse) <==> parse(listing[n].0).Some?;
      }
    }
  }

  /** A failed load names the first listed file whose name does not parse. */
  lemma {:induction false} LoadPagesFirstError(listing: Listing, parse: PageNamer)
    requires LoadPages(listing, parse).Err?
    ensures exists j ::
              && 0 <= j < |listing| && listing[j].0 == LoadPages(listing, parse).error
              && parse(listing[j].0) == None && AllNamesParse(listing[..j], parse)
    decreases |listing|
  {
    var n := |listing| - 1;
    var prefix := listing[..n];
    if LoadPages(prefix, parse).Err? {
      LoadPagesFirstError(prefix, parse);
      var j :| 0 <= j < n && prefix[j].0 == LoadPages(prefix, parse).error
        && parse(prefix[j].0) == None && AllNamesParse(prefix[..j], parse);
      assert prefix[..j] == listing[..j];
      assert prefix[j] == listing[j];
    } else {
      LoadPagesSucceedsIff(prefix, parse);
      assert prefix == listing[..n];
    }
  }

  /** A loaded page dict never holds a page number twice... */
  lemma {:induction false} LoadPagesDistinct(listing: Listing, parse: PageNamer)
    requires LoadPages(listing, parse).Ok?
    ensures DistinctKeys(LoadPages(listing, parse).value)
    decreases |listing|
  {
    if listing != [] {
      var prefix := listing[..|listing| - 1];
      assert LoadPages(prefix, parse).Ok?;
      LoadPagesDistinct(prefix, parse);
      DictAssignSpec(LoadPages(prefix, parse).value, parse(listing[|listing| - 1].0).value, listing[|listing| - 1].1);
    }
  }

  /** ... and holds the page number of every listed name. */
  lemma {:induction false} LoadPagesHasPage(listing: Listing, parse: PageNamer, j: nat)
    requires LoadPages(listing, parse).Ok? && j < |listing|
    ensures parse(listing[j].0).Some?
    ensures parse(listing[j].0).value in KeysOf(LoadPages(listing, parse).value)
    decreases |listing|
  {
    var n := |listing| - 1;
    var prefix := listing[..n];
    assert LoadPages(prefix, parse).Ok?;
    var d := LoadPages(prefix, parse).value;
    var k := parse(listing[n].0).value;
    assert LoadPages(listing, parse).value == DictAssign(d, k, listing[n].1);
    DictAssignSpec(d, k, listing[n].1);
    if j < n {
      LoadPagesHasPage(prefix, parse, j);
      assert prefix[j] == listing[j];
      assert parse(listing[j].0).Some?;
      assert parse(listing[j].0).value in KeysOf(d);
    } else {
      assert j == n;
      assert parse(listing[j].0).Some?;
      assert parse(listing[j].0).value == k;
    }
  }

  /** Each entry of a loaded page dict holds the image of the last listed
      file whose name gives that page number. */
  lemma {:induction false} LoadPagesLastWins(listing: Listing, parse: PageNamer)
    requires LoadPages(listing, parse).Ok?
    ensures forall p :: 0 <= p < |LoadPages(listing, parse).value| ==>
      var entry := LoadPages(listing, parse).value[p];
      0 <= LastIndexOfPage(listing, parse, entry.0) && entry.1 == listing[LastIndexOfPage(listing, parse, entry.0)].1
    decreases |listing|
  {
    if listing != [] {
      var n := |listing| - 1;
      var prefix := listing[..n];
      assert LoadPages(prefix, parse).Ok?;
      LoadPagesLastWins(prefix, parse);
      var d := LoadPages(prefix, parse).value;
      var k := parse(listing[n].0).value;
      var r := DictAssign(d, k, listing[n].1);
      assert LoadPages(listing, parse) == Ok(r);
      DictAssignSpec(d, k, listing[n].1);
      forall p | 0 <= p < |r|
        ensures 0 <= LastIndexOfPage(listing, parse, r[p].0) && r[p].1 == listing[LastIndexOfPage(listing, parse, r[p].0)].1
      {
        if r[p].0 == k {
          assert LastIndexOfPage(listing, parse, k) == n;
        } else {
          assert r[p] == d[p];
          assert LastIndexOfPage(listing, parse, r[p].0) == LastIndexOfPage(prefix, parse, r[p].0);
          assert prefix[LastIndexOfPage(prefix, parse, r[p].0)] == listing[LastIndexOfPage(prefix, parse, r[p].0)];
        }
      }
    }
  }

  lemma {:induction false} LoadPagesFailureSticks(listing: Listing, parse: PageNamer, j: nat)
    requires j <= |listing|
    requires LoadPages(listing[..j], parse).Err?
    ensures LoadPages(listing, parse) == LoadPages(listing[..j], parse)
    decreases |listing| - j
  {
    if j < |listing| {
      assert listing[..j + 1][..j] == listing[..j];
      LoadPagesFailureSticks(listing, parse, j + 1);
    } else {
      assert listing[..j] == listing;
    }
  }

  // ---------------------------------------------------------------------
  // Collecting boxes

  /** Some image of the directory holds a near-black pixel. */
  predicate AnyBlack(listing: Listing) {
    exists j :: 0 <= j < |listing| && ContainsBlackPixels(listing[j].1)
  }

  /** The boxes the extractor finds for one hue, page by page in dict order. */
  function PageBoxes(pages: PageDict, hue: real, extract: Extractor): seq<BoundingBox>
    decreases |pages|
  {
    if pages == [] then []
    else
      var n := |pages| - 1;
      PageBoxes(pages[..n], hue, extract) + extract(pages[n].1, pages[n].0, hue)
  }

  /** `entity_locations[e]` on a defaultdict(list): a missing key reads as the empty list. */
  function Get(m: map<EntityId, seq<BoundingBox>>, e: EntityId): seq<BoundingBox> {
    if e in m then m[e] else []
  }

  /** A defaultdict touched only through `append` never holds an empty list. */
  predicate NoEmptyLists(m: map<EntityId, seq<BoundingBox>>) {
    forall e :: e in m ==> m[e] != []
  }

  /** Appending `boxes` one by one to `entity_locations[e]`. */
  function AppendBoxes(m: map<EntityId, seq<BoundingBox>>, e: EntityId, boxes: seq<BoundingBox>): map<EntityId, seq<BoundingBox>> {
    if boxes == [] then m else m[e := Get(m, e) + boxes]
  }

  /** The list of `e` grows by exactly `boxes`, every other list stays, and
      no key appears unless something was appended to it. */
  lemma AppendBoxesSpec(m: map<EntityId, seq<BoundingBox>>, e: EntityId, boxes: seq<BoundingBox>)
    ensures Get(AppendBoxes(m, e, boxes), e) == Get(m, e) + boxes
    ensures forall e' :: e' != e ==> Get(AppendBoxes(m, e, boxes), e') == Get(m, e')
    ensures AppendBoxes(m, e, boxes).Keys == if boxes == [] then m.Keys else m.Keys + {e}
    ensures NoEmptyLists(m) ==> NoEmptyLists(AppendBoxes(m, e, boxes))
  {
  }

  /** The entity loop for one output file: each entity, in `entity_hues`
      order, receives the boxes of its hue on every page. */
  function FileStep(m: map<EntityId, seq<BoundingBox>>, hues: seq<(EntityId, real)>, pages: PageDict, extract: Extractor): map<EntityId, seq<BoundingBox>>
    decreases |hues|
  {
    if hues == [] then m
    else
      var n := |hues| - 1;
      AppendBoxes(FileStep(m, hues[..n], pages, extract), hues[n].0, PageBoxes(pages, hues[n].1, extract))
  }

  // ---------------------------------------------------------------------
  // The whole call

  /** One output file on top of the result so far: the directory must exist
      and every page name must parse. */
  function FileOutcome(r: LocationResult, path: Path, dirs: map<Path, Listing>, hues: seq<(EntityId, real)>, extract: Extractor, parse: PageNamer): Outcome {
    if path !in dirs then DiffDirMissing(path)
    else
      match LoadPages(dirs[path], parse)
      case Err(name) => PageNameInvalid(name)
      case Ok(pages) =>
        Located(LocationResult(FileStep(r.locations, hues, pages, extract), [], None, r.blackPixelsFound || AnyBlack(dirs[path])))
  }

  /** `locate_entities` over the output files in order; the first failure ends the call. */
  function LocateOutcome(outputs: seq<Path>, dirs: map<Path, Listing>, hues: seq<(EntityId, real)>, extract: Extractor, parse: PageNamer): Outcome
    decreases |outputs|
  {
    if outputs == [] then Located(LocationResult(map[], [], None, false))
    else
      var n := |outputs| - 1;
      match LocateOutcome(outputs[..n], dirs, hues, extract, parse)
      case DiffDirMissing(path) => DiffDirMissing(path)
      case PageNameInvalid(name) => PageNameInvalid(name)
      case Located(r) => FileOutcome(r, outputs[n], dirs, hues, extract, parse)
  }

  /** Every output file has its diff directory and every page name in it parses. */
  predicate AllFilesLoad(outputs: seq<Path>, dirs: map<Path, Listing>, parse: PageNamer) {
    forall i :: 0 <= i < |outputs| ==> outputs[i] in dirs && LoadPages(dirs[outputs[i]], parse).Ok?
  }

  /** All boxes of one hue, output file by output file. */
  function EntityBoxes(outputs: seq<Path>, dirs: map<Path, Listing>, hue: real, extract: Extractor, parse: PageNamer): seq<BoundingBox>
    requires AllFilesLoad(outputs, dirs, parse)
    decreases |outputs|
  {
    if outputs == [] then []
    else
      var n := |outputs| - 1;
      EntityBoxes(outputs[..n], dirs, hue, extract, parse) + PageBoxes(LoadPages(dirs[outputs[n]], parse).value, hue, extract)
  }

  // ---------------------------------------------------------------------
  // Lemmas about the whole call

  lemma LocateStep(outputs: seq<Path>, dirs: map<Path, Listing>, hues: seq<(EntityId, real)>, extract: Extractor, parse: PageNamer, i: nat)
    requires i < |outputs|
    ensures LocateOutcome(outputs[..i], dirs, hues, extract, parse).Located? ==>
      LocateOutcome(outputs[..i + 1], dirs, hues, extract, parse) ==
      FileOutcome(LocateOutcome(outputs[..i], dirs, hues, extract, parse).result, outputs[i], dirs, hues, extract, parse)
    ensures !LocateOutcome(outputs[..i], dirs, hues, extract, parse).Located? ==>
      LocateOutcome(outputs[..i + 1], dirs, hues, extract, parse) == LocateOutcome(outputs[..i], dirs, hues, extract, parse)
  {
    assert outputs[..i + 1][..i] == outputs[..i];
  }

  lemma {:induction false} LocateFailureSticks(outputs: seq<Path>, dirs: map<Path, Listing>, hues: seq<(EntityId, real)>, extract: Extractor, parse: PageNamer, i: nat)
    requires i <= |outputs|
    requires !LocateOutcome(outputs[..i], dirs, hues, extract, parse).Located?
    ensures LocateOutcome(outputs, dirs, hues, extract, parse) == LocateOutcome(outputs[..i], dirs, hues, extract, parse)
    decreases |outputs| - i
  {
    if i < |outputs| {
      LocateStep(outputs, dirs, hues, extract, parse, i);
      LocateFailureSticks(outputs, dirs, hues, extract, parse, i + 1);
    } else {
      assert outputs[..i] == outputs;
    }
  }

  lemma AllFilesLoadStep(outputs: seq<Path>, dirs: map<Path, Listing>, parse: PageNamer)
    requires outputs != []
    ensures AllFilesLoad(outputs, dirs, parse) <==>
      && AllFilesLoad(outputs[..|outputs| - 1], dirs, parse)
      && outputs[|outputs| - 1] in dirs && LoadPages(dirs[outputs[|outputs| - 1]], parse).Ok?
  {
    var prefix := outputs[..|outputs| - 1];
    assert forall i :: 0 <= i < |prefix| ==> prefix[i] == outputs[i];
  }

  /** The call returns a result exactly when every diff directory exists and
      every page name in it parses. */
  lemma {:induction false} LocateSucceedsIff(outputs: seq<Path>, dirs: map<Path, Listing>, hues: seq<(EntityId, real)>, extract: Extractor, parse: PageNamer)
    ensures LocateOutcome(outputs, dirs, hues, extract, parse).Located? <==> AllFilesLoad(outputs, dirs, parse)
    decreases |outputs|
  {
    if outputs != [] {
      var n := |outputs| - 1;
      var prefix := outputs[..n];
      LocateSucceedsIff(prefix, dirs, hues, extract, parse);
      AllFilesLoadStep(outputs, dirs, parse);
      var o := LocateOutcome(prefix, dirs, hues, extract, parse);
      if o.Located? {
        assert LocateOutcome(outputs, dirs, hues, extract, parse) == FileOutcome(o.result, outputs[n], dirs, hues, extract, parse);
      }
    }
  }

  /** The outcome that output file `path` fails with: its missing directory,
      or the first page name there that does not parse. */
  predicate FailsAt(o: Outcome, path: Path, dirs: map<Path, Listing>, parse: PageNamer) {
    if path !in dirs then o == DiffDirMissing(path)
    else LoadPages(dirs[path], parse).Err? && o == PageNameInvalid(LoadPages(dirs[path], parse).error)
  }

  /** A failed call reports the first output file that fails: a missing
      directory by its path, a bad page name by that name. */
  lemma {:induction false} LocateFirstFailure(outputs: seq<Path>, dirs: map<Path, Listing>, hues: seq<(EntityId, real)>, extract: Extractor, parse: PageNamer)
    requires !LocateOutcome(outputs, dirs, hues, extract, parse).Located?
    ensures exists i ::
      && 0 <= i < |outputs| && AllFilesLoad(outputs[..i], dirs, parse)
      && FailsAt(LocateOutcome(outputs, dirs, hues, extract, parse), outputs[i], dirs, parse)
    decreases |outputs|
  {
    var n := |outputs| - 1;
    var prefix := outputs[..n];
    if !LocateOutcome(prefix, dirs, hues, extract, parse).Located? {
      LocateFirstFailure(prefix, dirs, hues, extract, parse);
      var i :| && 0 <= i < n && AllFilesLoad(prefix[..i], dirs, parse)
        && FailsAt(LocateOutcome(prefix, dirs, hues, extract, parse), prefix[i], dirs, parse);
      assert prefix[..i] == outputs[..i];
      assert prefix[i] == outputs[i];
    } else {
      LocateSucceedsIff(prefix, dirs, hues, extract, parse);
      assert prefix == outputs[..n];
    }
  }

  /** A result for several files is the result for all but the last,
      extended by the last file's pages. */
  lemma LocatedLast(outputs: seq<Path>, dirs: map<Path, Listing>, hues: seq<(EntityId, real)>, extract: Extractor, parse: PageNamer)
    requires outputs != []
    requires LocateOutcome(outputs, dirs, hues, extract, parse).Located?
    ensures LocateOutcome(outputs[..|outputs| - 1], dirs, hues, extract, parse).Located?
    ensures outputs[|outputs| - 1] in dirs && LoadPages(dirs[outputs[|outputs| - 1]], parse).Ok?
    ensures LocateOutcome(outputs, dirs, hues, extract, parse).result ==
      LocationResult(
        FileStep(LocateOutcome(outputs[..|outputs| - 1], dirs, hues, extract, parse).result.locations,
          hues, LoadPages(dirs[outputs[|outputs| - 1]], parse).value, extract),
        [], None,
        LocateOutcome(outputs[..|outputs| - 1], dirs, hues, extract, parse).result.blackPixelsFound
          || AnyBlack(dirs[outputs[|outputs| - 1]]))
  {
  }

  /** A result never reports shifted entities, and holds only entities of
      `entity_hues`, each with at least one box. */
  lemma {:induction false} LocatedShape(outputs: seq<Path>, dirs: map<Path, Listing>, hues: seq<(EntityId, real)>, extract: Extractor, parse: PageNamer)
    requires LocateOutcome(outputs, dirs, hues, extract, parse).Located?
    ensures LocateOutcome(outputs, dirs, hues, extract, parse).result.shiftedEntities == []
    ensures LocateOutcome(outputs, dirs, hues, extract, parse).result.firstShiftedEntity == None
    ensures NoEmptyLists(LocateOutcome(outputs, dirs, hues, extract, parse).result.locations)
    ensures LocateOutcome(outputs, dirs, hues, extract, parse).result.locations.Keys <= KeysOf(hues)
    decreases |outputs|
  {
    if outputs != [] {
      var n := |outputs| - 1;
      var prefix := outputs[..n];
      LocatedLast(outputs, dirs, hues, extract, parse);
      LocatedShape(prefix, dirs, hues, extract, parse);
      var r := LocateOutcome(prefix, dirs, hues, extract, parse).result;
      var pages := LoadPages(dirs[outputs[n]], parse).value;
      FileStepKeys(r.locations, hues, pages, extract);
    }
  }

  /** Output file `i` has its diff directory and some image there holds a near-black pixel. */
  predicate BlackAt(outputs: seq<Path>, dirs: map<Path, Listing>, i: nat)
    requires i < |outputs|
  {
    outputs[i] in dirs && AnyBlack(dirs[outputs[i]])
  }

  /** Some diff directory of the first `|outputs|` output files holds a
      near-black pixel, checked file by file. */
  predicate BlackIn(outputs: seq<Path>, dirs: map<Path, Listing>)
    decreases |outputs|
  {
    outputs != [] && (BlackIn(outputs[..|outputs| - 1], dirs) || BlackAt(outputs, dirs, |outputs| - 1))
  }

  lemma {:induction false} BlackInExists(outputs: seq<Path>, dirs: map<Path, Listing>)
    ensures BlackIn(outputs, dirs) <==> exists i :: 0 <= i < |outputs| && BlackAt(outputs, dirs, i)
    decreases |outputs|
  {
    if outputs != [] {
      var n := |outputs| - 1;
      var prefix := outputs[..n];
      BlackInExists(prefix, dirs);
      if BlackIn(prefix, dirs) {
        var i :| 0 <= i < n && BlackAt(prefix, dirs, i);
        assert prefix[i] == outputs[i];
        assert BlackAt(outputs, dirs, i);
      }
      if i :| 0 <= i < |outputs| && BlackAt(outputs, dirs, i) {
        if i < n {
          assert prefix[i] == outputs[i];
          assert BlackAt(prefix, dirs, i);
        }
      }
    }
  }

  lemma {:induction false} LocatedBlackIn(outputs: seq<Path>, dirs: map<Path, Listing>, hues: seq<(EntityId, real)>, extract: Extractor, parse: PageNamer)
    requires LocateOutcome(outputs, dirs, hues, extract, parse).Located?
    ensures LocateOutcome(outputs, dirs, hues, extract, parse).result.blackPixelsFound == BlackIn(outputs, dirs)
    decreases |outputs|
  {
    if outputs != [] {
      LocatedLast(outputs, dirs, hues, extract, parse);
      LocatedBlackIn(outputs[..|outputs| - 1], dirs, hues, extract, parse);
    }
  }

  /** `black_pixels_found` is set exactly when some image of some diff
      directory holds a near-black pixel. */
  lemma LocatedBlack(outputs: seq<Path>, dirs: map<Path, Listing>, hues: seq<(EntityId, real)>, extract: Extractor, parse: PageNamer)
    requires LocateOutcome(outputs, dirs, hues, extract, parse).Located?
    ensures LocateOutcome(outputs, dirs, hues, extract, parse).result.blackPixelsFound <==>
      exists i :: 0 <= i < |outputs| && BlackAt(outputs, dirs, i)
  {
    LocatedBlackIn(outputs, dirs, hues, extract, parse);
    BlackInExists(outputs, dirs);
  }

  /** Each entity's list is the concatenation, over output files and then
      pages, of the boxes found for its hue. */
  lemma {:induction false} LocatedBoxesOf(outputs: seq<Path>, dirs: map<Path, Listing>, hues: seq<(EntityId, real)>, extract: Extractor, parse: PageNamer, k: nat)
    requires DistinctKeys(hues) && k < |hues|
    requires LocateOutcome(outputs, dirs, hues, extract, parse).Located?
    ensures AllFilesLoad(outputs, dirs, parse)
    ensures Get(LocateOutcome(outputs, dirs, hues, extract, parse).result.locations, hues[k].0) ==
      EntityBoxes(outputs, dirs, hues[k].1, extract, parse)
    decreases |outputs|
  {
    LocateSucceedsIff(outputs, dirs, hues, extract, parse);
    if outputs != [] {
      var n := |outputs| - 1;
      var prefix := outputs[..n];
      LocatedLast(outputs, dirs, hues, extract, parse);
      LocatedBoxesOf(prefix, dirs, hues, extract, parse, k);
      var r := LocateOutcome(prefix, dirs, hues, extract, parse).result;
      var pages := LoadPages(dirs[outputs[n]], parse).value;
      FileStepOwn(r.locations, hues, pages, extract, k);
    }
  }

  lemma LocatedBoxes(outputs: seq<Path>, dirs: map<Path, Listing>, hues: seq<(EntityId, real)>, extract: Extractor, parse: PageNamer)
    requires DistinctKeys(hues)
    requires LocateOutcome(outputs, dirs, hues, extract, parse).Located?
    ensures AllFilesLoad(outputs, dirs, parse)
    ensures forall k :: 0 <= k < |hues| ==>
      Get(LocateOutcome(outputs, dirs, hues, extract, parse).result.locations, hues[k].0) ==
      EntityBoxes(outputs, dirs, hues[k].1, extract, parse)
  {
    LocateSucceedsIff(outputs, dirs, hues, extract, parse);
    forall k | 0 <= k < |hues|
      ensures Get(LocateOutcome(outputs, dirs, hues, extract, parse).result.locations, hues[k].0) ==
        EntityBoxes(outputs, dirs, hues[k].1, extract, parse)
    {
      LocatedBoxesOf(outputs, dirs, hues, extract, parse, k);
    }
  }

  /** A box is reported for a hue exactly when the extractor found it for
      that hue on some page of some output file. */
  lemma {:induction false} EntityBoxesProvenance(outputs: seq<Path>, dirs: map<Path, Listing>, hue: real, extract: Extractor, parse: PageNamer, b: BoundingBox)
    requires AllFilesLoad(outputs, dirs, parse)
    ensures b in EntityBoxes(outputs, dirs, hue, extract, parse) <==>
      exists i :: 0 <= i < |outputs| && b in PageBoxes(LoadPages(dirs[outputs[i]], parse).value, hue, extract)
    decreases |outputs|
  {
    if outputs != [] {
      var n := |outputs| - 1;
      var prefix := outputs[..n];
      EntityBoxesProvenance(prefix, dirs, hue, extract, parse, b);
      var last := PageBoxes(LoadPages(dirs[outputs[n]], parse).value, hue, extract);
      assert EntityBoxes(outputs, dirs, hue, extract, parse) == EntityBoxes(prefix, dirs, hue, extract, parse) + last;
      if b in EntityBoxes(prefix, dirs, hue, extract, parse) {
        var i :| 0 <= i < n && b in PageBoxes(LoadPages(dirs[prefix[i]], parse).value, hue, extract);
        assert prefix[i] == outputs[i];
      }
      if i :| 0 <= i < |outputs| && b in PageBoxes(LoadPages(dirs[outputs[i]], parse).value, hue, extract) {
        if i < n {
          assert prefix[i] == outputs[i];
          assert b in EntityBoxes(prefix, dirs, hue, extract, parse);
        } else {
          assert i == n;
        }
      }
    }
  }

  // ---------------------------------------------------------------------
  // Lemmas about one output file

  lemma {:induction false} FileStepKeys(m: map<EntityId, seq<BoundingBox>>, hues: seq<(EntityId, real)>, pages: PageDict, extract: Extractor)
    ensures FileStep(m, hues, pages, extract).Keys <= m.Keys + KeysOf(hues)
    ensures NoEmptyLists(m) ==> NoEmptyLists(FileStep(m, hues, pages, extract))
    decreases |hues|
  {
    if hues != [] {
      var n := |hues| - 1;
      var prefix := hues[..n];
      var before := FileStep(m, prefix, pages, extract);
      assert FileStep(m, hues, pages, extract) == AppendBoxes(before, hues[n].0, PageBoxes(pages, hues[n].1, extract));
      FileStepKeys(m, prefix, pages, extract);
      AppendBoxesSpec(before, hues[n].0, PageBoxes(pages, hues[n].1, extract));
      assert hues[n].0 in KeysOf(hues);
      assert KeysOf(prefix) <= KeysOf(hues) by {
        forall k | k in KeysOf(prefix)
          ensures k in KeysOf(hues)
        {
          var i :| 0 <= i < n && prefix[i].0 == k;
          assert prefix[i] == hues[i];
        }
      }
    }
  }

  /** A box is found for a hue in one output file exactly when the extractor
      returns it for some page of the dict. */
  lemma {:induction false} PageBoxesProvenance(pages: PageDict, hue: real, extract: Extractor, b: BoundingBox)
    ensures b in PageBoxes(pages, hue, extract) <==> exists p :: 0 <= p < |pages| && b in extract(pages[p].1, pages[p].0, hue)
    decreases |pages|
  {
    if pages != [] {
      var n := |pages| - 1;
      var prefix := pages[..n];
      PageBoxesProvenance(prefix, hue, extract, b);
      assert forall p :: 0 <= p < n ==> prefix[p] == pages[p];
    }
  }

  /** An entity outside `hues` keeps its list. */
  lemma {:induction false} FileStepOther(m: map<EntityId, seq<BoundingBox>>, hues: seq<(EntityId, real)>, pages: PageDict, extract: Extractor, e: EntityId)
    requires e !in KeysOf(hues)
    ensures Get(FileStep(m, hues, pages, extract), e) == Get(m, e)
    decreases |hues|
  {
    if hues != [] {
      var n := |hues| - 1;
      var prefix := hues[..n];
      var before := FileStep(m, prefix, pages, extract);
      assert FileStep(m, hues, pages, extract) == AppendBoxes(before, hues[n].0, PageBoxes(pages, hues[n].1, extract));
      assert hues[n].0 != e;
      assert e !in KeysOf(prefix) by {
        forall i | 0 <= i < n
          ensures prefix[i].0 != e
        {
          assert prefix[i] == hues[i];
        }
      }
      FileStepOther(m, prefix, pages, extract, e);
      AppendBoxesSpec(before, hues[n].0, PageBoxes(pages, hues[n].1, extract));
    }
  }

  /** An entity of `hues` gets the boxes of its own hue appended. */
  lemma {:induction false} FileStepOwn(m: map<EntityId, seq<BoundingBox>>, hues: seq<(EntityId, real)>, pages: PageDict, extract: Extractor, k: nat)
    requires DistinctKeys(hues) && k < |hues|
    ensures Get(FileStep(m, hues, pages, extract), hues[k].0) == Get(m, hues[k].0) + PageBoxes(pages, hues[k].1, extract)
    decreases |hues|
  {
    var n := |hues| - 1;
    var prefix := hues[..n];
    if k == n {
      assert hues[n].0 !in KeysOf(prefix) by {
        assert forall i :: 0 <= i < n ==> prefix[i] == hues[i];
      }
      FileStepOther(m, prefix, pages, extract, hues[n].0);
      AppendBoxesSpec(FileStep(m, prefix, pages, extract), hues[n].0, PageBoxes(pages, hues[n].1, extract));
    } else {
      assert prefix[k] == hues[k];
      assert DistinctKeys(prefix) by {
        assert forall i :: 0 <= i < n ==> prefix[i] == hues[i];
      }
      FileStepOwn(m, prefix, pages, extract, k);
      AppendBoxesSpec(FileStep(m, prefix, pages, extract), hues[n].0, PageBoxes(pages, hues[n].1, extract));
    }
  }

  // ---------------------------------------------------------------------
  // The loops of `locate_entities`

  lemma AnyBlackStep(listing: Listing, j: nat)
    requires j < |listing|
    ensures AnyBlack(listing[..j + 1]) == (AnyBlack(listing[..j]) || ContainsBlackPixels(listing[j].1))
  {
    assert listing[..j + 1][j] == listing[j];
    assert forall i :: 0 <= i < j ==> listing[..j + 1][i] == listing[..j][i];
  }

  lemma PageBoxesStep(pages: PageDict, hue: real, extract: Extractor, p: nat)
    requires p < |pages|
    ensures PageBoxes(pages[..p + 1], hue, extract) == PageBoxes(pages[..p], hue, extract) + extract(pages[p].1, pages[p].0, hue)
  {
    assert pages[..p + 1][..p] == pages[..p];
  }

  lemma FileStepStep(m: map<EntityId, seq<BoundingBox>>, hues: seq<(EntityId, real)>, pages: PageDict, extract: Extractor, k: nat)
    requires k < |hues|
    ensures FileStep(m, hues[..k + 1], pages, extract) ==
      AppendBoxes(FileStep(m, hues[..k], pages, extract), hues[k].0, PageBoxes(pages, hues[k].1, extract))
  {
    assert hues[..k + 1][..k] == hues[..k];
  }

  /** `entity_locations[e].append(box)`. */
  lemma AppendOne(m: map<EntityId, seq<BoundingBox>>, e: EntityId, box: BoundingBox)
    ensures AppendBoxes(m, e, [box]) == m[e := Get(m, e) + [box]]
  {
  }

  lemma AppendOneStep(start: map<EntityId, seq<BoundingBox>>, e: EntityId, boxes: seq<BoundingBox>, b: nat, m: map<EntityId, seq<BoundingBox>>)
    requires b < |boxes| && m == AppendBoxes(start, e, boxes[..b])
    ensures m[e := Get(m, e) + [boxes[b]]] == AppendBoxes(start, e, boxes[..b + 1])
  {
    AppendBoxesTwice(start, e, boxes[..b], [boxes[b]]);
    assert boxes[..b] + [boxes[b]] == boxes[..b + 1];
    AppendOne(m, e, boxes[b]);
  }

  /** Appending in two rounds is appending the concatenation. */
  lemma AppendBoxesTwice(m: map<EntityId, seq<BoundingBox>>, e: EntityId, a: seq<BoundingBox>, b: seq<BoundingBox>)
    ensures AppendBoxes(AppendBoxes(m, e, a), e, b) == AppendBoxes(m, e, a + b)
  {
    if a == [] {
      assert a + b == b;
    } else if b == [] {
      assert a + b == a;
    } else {
      assert (Get(m, e) + a) + b == Get(m, e) + (a + b);
    }
  }

  /** The directory loop of `locate_entities` for one output file: the
      artifact check runs on each image before its name is parsed, and a
      name without a page number ends the loop. `Locate` passes
      `ParsePageNumber` as `pageNumberOf`. */
  method LoadPageImages(listing: Listing, blackBefore: bool, pageNumberOf: PageNamer) returns (loaded: Result<PageDict, string>, blackPixelsFound: bool)
    ensures loaded == LoadPages(listing, pageNumberOf)
    ensures loaded.Ok? ==> blackPixelsFound == (blackBefore || AnyBlack(listing))
  {
    blackPixelsFound := blackBefore;
    var pageImages: PageDict := [];
    for j := 0 to |listing|
      invariant LoadPages(listing[..j], pageNumberOf) == Ok(pageImages)
      invariant blackPixelsFound == (blackBefore || AnyBlack(listing[..j]))
    {
      var (name, image) := listing[j];
      if ContainsBlackPixels(image) {
        blackPixelsFound := true;
      }
      AnyBlackStep(listing, j);
      LoadPagesStep(listing, pageNumberOf, j, pageImages);
      var pageNumber := pageNumberOf(name);
      if pageNumber.None? {
        LoadPagesFailureSticks(listing, pageNumberOf, j + 1);
        return Err(name), blackPixelsFound;
      }
      pageImages := DictAssign(pageImages, pageNumber.value, image);
    }
    assert listing[..|listing|] == listing;
    return Ok(pageImages), blackPixelsFound;
  }

  /** `for box in boxes: entity_locations[entity_id].append(box)`. */
  method AppendEach(start: map<EntityId, seq<BoundingBox>>, entityId: EntityId, boxes: seq<BoundingBox>)
    returns (entityLocations: map<EntityId, seq<BoundingBox>>)
    ensures entityLocations == AppendBoxes(start, entityId, boxes)
  {
    entityLocations := start;
    for b := 0 to |boxes|
      invariant entityLocations == AppendBoxes(start, entityId, boxes[..b])
    {
      AppendOneStep(start, entityId, boxes, b, entityLocations);
      entityLocations := entityLocations[entityId := Get(entityLocations, entityId) + [boxes[b]]];
    }
    assert boxes[..|boxes|] == boxes;
  }

  /** The entity loop of `locate_entities` for one output file: for every
      entity and every page, each box of the entity's hue is appended. */
  method CollectBoxes(start: map<EntityId, seq<BoundingBox>>, entityHues: seq<(EntityId, real)>, pageImages: PageDict, extract: Extractor)
    returns (entityLocations: map<EntityId, seq<BoundingBox>>)
    ensures entityLocations == FileStep(start, entityHues, pageImages, extract)
  {
    entityLocations := start;
    for k := 0 to |entityHues|
      invariant entityLocations == FileStep(start, entityHues[..k], pageImages, extract)
    {
      var (entityId, hue) := entityHues[k];
      var entityStart := entityLocations;
      for p := 0 to |pageImages|
        invariant entityLocations == AppendBoxes(entityStart, entityId, PageBoxes(pageImages[..p], hue, extract))
      {
        var (pageNumber, image) := pageImages[p];
        var boxes := extract(image, pageNumber, hue);
        entityLocations := AppendEach(entityLocations, entityId, boxes);
        PageBoxesStep(pageImages, hue, extract, p);
        AppendBoxesTwice(entityStart, entityId, PageBoxes(pageImages[..p], hue, extract), boxes);
      }
      assert pageImages[..|pageImages|] == pageImages;
      FileStepStep(start, entityHues, pageImages, extract, k);
    }
    assert entityHues[..|entityHues|] == entityHues;
  }

  /** `locate_entities`: `outputPaths` is what `get_output_files` yields for
      the compiled sources, `diffDirs` maps each diff directory that exists
      to its listing, `entityHues` is the dict's items in order. */
  method Locate(outputPaths: seq<Path>, diffDirs: map<Path, Listing>, entityHues: seq<(EntityId, real)>, extract: Extractor)
    returns (outcome: Outcome)
    ensures outcome == LocateOutcome(outputPaths, diffDirs, entityHues, extract, ParsePageNumber)
  {
    var blackPixelsFound := false;
    var entityLocations: map<EntityId, seq<BoundingBox>> := map[];
    for i := 0 to |outputPaths|
      invariant LocateOutcome(outputPaths[..i], diffDirs, entityHues, extract, ParsePageNumber) ==
        Located(LocationResult(entityLocations, [], None, blackPixelsFound))
    {
      var path := outputPaths[i];
      LocateStep(outputPaths, diffDirs, entityHues, extract, ParsePageNumber, i);
      if path !in diffDirs {
        LocateFailureSticks(outputPaths, diffDirs, entityHues, extract, ParsePageNumber, i + 1);
        return DiffDirMissing(path);
      }
      var loaded;
      loaded, blackPixelsFound := LoadPageImages(diffDirs[path], blackPixelsFound, ParsePageNumber);
      if loaded.Err? {
        LocateFailureSticks(outputPaths, diffDirs, entityHues, extract, ParsePageNumber, i + 1);
        return PageNameInvalid(loaded.error);
      }
      entityLocations := CollectBoxes(entityLocations, entityHues, loaded.value, extract);
    }
    assert outputPaths[..|outputPaths|] == outputPaths;
    return Located(LocationResult(entityLocations, [], None, blackPixelsFound));
  }
}
