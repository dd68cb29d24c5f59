# Decode half of scholarphi's hue-encoding pipeline, in Dafny

scholarphi finds where each entity of a paper appears on its rendered
pages. It gives every entity (a citation, a symbol) its own hue, compiles
the paper once plain and once coloured, and diffs the page images. The
pixels of an entity's hue become bounding boxes for that entity. This
project models the part that reads those diffs and exports the result.

- **Pixel predicates** (`images.dfy`, module `Images`):
  - the artifact detector `contains_black_pixels`;
  - the layout-shift detector `has_hue_shifted`, with its blank/non-blank
    XOR mask and its circular hue distance on cv2's 0..180 hue scale.

  Images are grids of HSV pixels.
- **Page-pair locator** (`locate_entities.dfy`, module `LocateEntities`).
  `locate_entities` walks the compiled output files of a paper.
  - A missing diff directory aborts the call with no result.
  - Page file names are parsed into 0-based page numbers. A name that
    `int()` rejects raises.
  - One document-wide "black pixels found" flag is ORed over every image.
  - The boxes the extractor returns for each entity's hue on each page are
    appended to that entity's list.

  The function is a `method` whose loops are proved equal to the
  specification function `LocateOutcome`. Lemmas then state what the
  outcome means: when it fails and with which error, what the black flag
  says, and where each box in a list came from.
- **Page names** (`decimal.dfy`, module `Decimal`, and the first part of
  `locate_entities.dfy`). The page number is
  `int(os.path.splitext(name)[0].replace("page-", "")) - 1`. Each step is
  modelled with Python's own edge cases:
  - a hidden file's leading dots are not an extension;
  - every occurrence of the prefix is removed;
  - `int()` accepts surrounding whitespace (space, `\t\n\v\f\r`, and
    non-ASCII Unicode whitespace), a sign, and single
    underscores between digits.
- **Citation export writer** (`citations_output.dfy`, module
  `CitationsOutput`):
  - `save` turns each resolved (citation key, cluster) pair into one
    `EntityUploadInfo`;
  - `write_to_file` puts the records in a `"v0"` container and never
    overwrites a file that exists when it checks (`FileSystem` is a class whose `files` map
    the writer updates);
  - `load` builds the key to S2 id table and the reference table, and
    skips a paper whose inputs are not all present.

`basics.dfy` holds `Option`, `Result`, `BoundingBox` and the key set of an
association list.

`has_hue_shifted` reports a pixel whose blank/non-blank state differs
between the two rasters and whose new hue is the target's. So a rectangle
that was white (blank) in the plain page and is coloured in the coloured
page is reported: its pixels change from blank to non-blank and carry the
target hue (`Images.NewContentOfHueShifted`). A change goes unreported
exactly when no pixel both flips its blank state and carries the target
hue afterwards (the contract of `Images.HasHueShifted`); every recolouring
that keeps each pixel's blank/non-blank state is such a change
(`Images.FillPreservingRecolorNotShifted`).

## Model

| member | source | states |
|---|---|---|
| Images.ContainsBlackPixels | data-processing/common/locate_entities.py:75-91 | true exactly when some pixel has saturation below 20 and value below 150 |
| Images.BlackPixelDecides | data-processing/common/locate_entities.py:84-91 | one near-black pixel anywhere makes the image fail the artifact check; for a single-colour image the verdict is that pixel's |
| Images.HasHueShifted | data-processing/common/locate_entities.py:93-134 | true exactly when some pixel changed blank state (saturation < 10 and value > 230) between the two rasters and its new hue lies within 180·tolerance of 180·hue on the wheel |
| Images.IdenticalRastersNotShifted | data-processing/common/locate_entities.py:115-134 | the same raster before and after is never reported |
| Images.FillPreservingRecolorNotShifted | data-processing/common/locate_entities.py:115-134 | a change that keeps every pixel's blank state is never reported, whatever the hues |
| Images.NewContentOfHueShifted | data-processing/common/locate_entities.py:109-134 | a pixel blank before, non-blank after and of the target hue makes the check report a shift |
| Images.HueDistanceIsCircular | data-processing/common/locate_entities.py:130-133 | for a well-formed HSV pixel (hue in [0,180)) and a target in [0,1) the measured distance is the shortest way round the wheel, between 0 and 90 |
| Images.DefaultToleranceWindow | data-processing/common/locate_entities.py:93-134 | at the default tolerance 0.02 a hue matches exactly when it is within 3.6 cv2 steps of the target |
| Images.HueWrapsAround | data-processing/common/locate_entities.py:130-134 | hue 2 matches target 0.99 at tolerance 0.03 although they are 176.2 apart along the scale |
| Decimal.ParseIntToString | data-processing/common/locate_entities.py:58 | `int(str(n)) == n` for every integer |
| Decimal.ParseIntRejectsForeignChar | data-processing/common/locate_entities.py:58 | a character that is no whitespace, digit, sign or underscore makes `int()` fail |
| Decimal.StripKeeps | data-processing/common/locate_entities.py:58 | stripping whitespace keeps every other character, in place after the dropped prefix |
| Decimal.SeparatorNotSkipped | data-processing/common/locate_entities.py:58 | `int()` does not skip an ASCII separator such as U+001C: `int("\x1c5")` fails |
| Decimal.IntToStringInjective | data-processing/entities/citations/commands/write_citations_output.py:118 | distinct integers print differently |
| LocateEntities.PageNameParses | data-processing/common/locate_entities.py:58-59 | the file `page-<n>.<ext>` goes under page n - 1 |
| LocateEntities.NonIntegerPageNameStopsLocate | data-processing/common/locate_entities.py:38-59 | a listed diff image whose stem is not an integer once `page-` is removed makes `locate_entities` produce no result: the file is never skipped |
| LocateEntities.NonIntegerPageNameFails | data-processing/common/locate_entities.py:58 | an example: the name `page-x.png` is rejected |
| LocateEntities.SplitExtRootAtLastDot | data-processing/common/locate_entities.py:58 | `splitext` cuts a name at its last dot |
| LocateEntities.RemoveAllLeadingPattern | data-processing/common/locate_entities.py:58 | removing `page-` drops a leading `page-` |
| LocateEntities.DictAssignSpec | data-processing/common/locate_entities.py:59 | `page_images[p] = img`: the keys gain p; an existing key keeps its place and takes the new image; other entries are unchanged; keys stay distinct |
| LocateEntities.LoadPagesSucceedsIff | data-processing/common/locate_entities.py:50-59 | a directory loads exactly when every file name gives a page number |
| LocateEntities.LoadPagesFirstError | data-processing/common/locate_entities.py:50-59 | a failed load reports the first listed name that does not parse |
| LocateEntities.LoadPagesDistinct | data-processing/common/locate_entities.py:59 | the page dict never holds a page twice |
| LocateEntities.LoadPagesHasPage | data-processing/common/locate_entities.py:58-59 | every listed file's page number is a key of the page dict |
| LocateEntities.LoadPagesLastWins | data-processing/common/locate_entities.py:59 | each page holds the image of the last listed file with that page number |
| LocateEntities.AppendBoxesSpec | data-processing/common/locate_entities.py:64-65 | the entity's list grows by exactly the boxes, in order; other lists are unchanged; no key is created unless a box is appended |
| LocateEntities.AppendEach | data-processing/common/locate_entities.py:64-65 | the box loop computes `AppendBoxes` |
| LocateEntities.CollectBoxes | data-processing/common/locate_entities.py:61-65 | the entity and page loops compute `FileStep` |
| LocateEntities.LoadPageImages | data-processing/common/locate_entities.py:50-59 | the listing loop loads the page dict as `LoadPages` does; on success the black flag becomes the old flag OR some image of the directory is near-black |
| LocateEntities.Locate | data-processing/common/locate_entities.py:25-72 | the whole call ends in exactly `LocateOutcome` |
| LocateEntities.LocateSucceedsIff | data-processing/common/locate_entities.py:38-59 | a result is returned exactly when every output file has its diff directory and every page name there parses |
| LocateEntities.LocateFirstFailure | data-processing/common/locate_entities.py:41-48 | a failed call reports the first failing output file: its path when its directory is missing, otherwise the bad page name; there is no partial result |
| LocateEntities.LocateFailureSticks | data-processing/common/locate_entities.py:38-48 | once a file fails, later files do not change the outcome |
| LocateEntities.LocatedShape | data-processing/common/locate_entities.py:67-72 | a result has no shifted entities, no first shifted entity, only keys of `entity_hues`, and no empty list |
| LocateEntities.LocatedBlack | data-processing/common/locate_entities.py:35-56 | `black_pixels_found` holds exactly when some image of some output file's directory holds a near-black pixel |
| LocateEntities.LocatedBlackIn | data-processing/common/locate_entities.py:35-56 | the flag after every file equals the file-by-file disjunction of the directories' black checks |
| LocateEntities.BlackInExists | data-processing/common/locate_entities.py:54-56 | that disjunction holds exactly when one directory holds a near-black pixel |
| LocateEntities.LocatedBoxesOf | data-processing/common/locate_entities.py:38-65 | each entity's list is its hue's boxes in output-file order, then page-dict order, then extractor order, with nothing dropped or merged |
| LocateEntities.LocatedBoxes | data-processing/common/locate_entities.py:38-65 | the same for every entity at once |
| LocateEntities.EntityBoxesProvenance | data-processing/common/locate_entities.py:38-65 | a box is in an entity's list exactly when the extractor returned it for that entity's hue on a page of some output file |
| LocateEntities.PageBoxesProvenance | data-processing/common/locate_entities.py:62-65 | within one file, a box is found exactly when the extractor returns it for some page |
| LocateEntities.FileStepKeys | data-processing/common/locate_entities.py:61-65 | one file's entity loop adds only keys of `entity_hues` and never an empty list |
| LocateEntities.FileStepOwn | data-processing/common/locate_entities.py:61-65 | an entity's list gains exactly the boxes of its own hue, in page order |
| LocateEntities.FileStepOther | data-processing/common/locate_entities.py:61-65 | an id outside `entity_hues` keeps its list |
| LocateEntities.AppendBoxesTwice | data-processing/common/locate_entities.py:62-65 | appending two batches is appending their concatenation |
| CitationsOutput.CitationIdInjective | data-processing/entities/citations/commands/write_citations_output.py:118 | for non-negative cluster indices, the id `"<key>-<cluster>"` determines both key and index |
| CitationsOutput.ListOfSet | data-processing/entities/citations/commands/write_citations_output.py:116 | the list holds every element of the set exactly once |
| CitationsOutput.ListingOfSet | data-processing/entities/citations/commands/write_citations_output.py:116 | such a list has the set's size and exactly its elements |
| CitationsOutput.InfosForClusterStep | data-processing/entities/citations/commands/write_citations_output.py:115-124 | one pass of the cluster loop extends the records by the record of the next cluster |
| CitationsOutput.EntityInfos | data-processing/entities/citations/commands/write_citations_output.py:102-124 | one record per resolved cluster, in order, each with the right id, type `"citation"`, exactly the cluster's boxes, and data `{key, paper_id}`; the counter equals the number of records |
| CitationsOutput.ClustersMembership | data-processing/entities/citations/commands/write_citations_output.py:105-123 | a cluster gets a record exactly when its key has an S2 id, and the record carries that id |
| CitationsOutput.UnresolvedKeyExcluded | data-processing/entities/citations/commands/write_citations_output.py:107-113 | a key absent from `key_s2_ids` contributes no record |
| CitationsOutput.ClustersAppend | data-processing/entities/citations/commands/write_citations_output.py:105-123 | records follow citation-key order, then cluster order |
| CitationsOutput.ClustersCount | data-processing/entities/citations/commands/write_citations_output.py:105-124 | the number of records is the sum, over resolved keys, of their cluster counts |
| CitationsOutput.ClusterPairsDistinct | data-processing/entities/citations/commands/write_citations_output.py:105-123 | with distinct keys and cluster indices, no (key, cluster) pair gets two records |
| CitationsOutput.ClusterIdsDistinct | data-processing/entities/citations/commands/write_citations_output.py:115-123 | with distinct keys and distinct non-negative cluster indices, record ids are pairwise distinct |
| CitationsOutput.SavedIdsDistinct | data-processing/entities/citations/commands/write_citations_output.py:102-124 | the records `save` builds have the resolved-cluster count, and when every cluster index is non-negative their ids are pairwise distinct |
| CitationsOutput.WriteIfAbsent | data-processing/entities/citations/commands/write_citations_output.py:141-146 | after the write the output path exists and no other file changes |
| CitationsOutput.SecondWriteIsNoOp | data-processing/entities/citations/commands/write_citations_output.py:141-146 | a second write, with any records, changes nothing |
| CitationsOutput.WriteIfAbsentContents | data-processing/entities/citations/commands/write_citations_output.py:141-146 | the output file keeps its old contents if it existed, and is otherwise exactly the container |
| CitationsOutput.WriteCitationsOutput.WriteToFile | data-processing/entities/citations/commands/write_citations_output.py:129-146 | writes `{version, data}` with the records in order, only when the file is absent; reports whether it wrote |
| CitationsOutput.WriteCitationsOutput.Save | data-processing/entities/citations/commands/write_citations_output.py:98-127 | the file gets a `"v0"` container of exactly the records of the resolved clusters, unless it already exists |
| CitationsOutput.ResolutionTableLastWins | data-processing/entities/citations/commands/write_citations_output.py:56-60 | a key is in the table exactly when some row names it, and maps to the S2 id of the last such row |
| CitationsOutput.ResolutionTableKeys | data-processing/entities/citations/commands/write_citations_output.py:56-60 | the table's keys are exactly the non-None row keys |
| CitationsOutput.BuildResolutionTable | data-processing/entities/citations/commands/write_citations_output.py:56-60 | the loop builds `ResolutionTable` |
| CitationsOutput.SplitJoin | data-processing/entities/citations/commands/write_citations_output.py:85-87 | splitting the comma-joined names gives the names back, when no name holds a comma |
| CitationsOutput.ReferenceTableLastWins | data-processing/entities/citations/commands/write_citations_output.py:81-89 | every row's S2 id maps to the last row with that id, its authors joined with commas |
| CitationsOutput.BuildReferenceTable | data-processing/entities/citations/commands/write_citations_output.py:81-89 | the loop builds `ReferenceTable` |
| CitationsOutput.LoadAllYields | data-processing/entities/citations/commands/write_citations_output.py:37-93 | a paper's data is yielded exactly when its located citations, resolutions, S2 id and references are all present |
| CitationsOutput.CompletePositionsSpec | data-processing/entities/citations/commands/write_citations_output.py:37-93 | the reference list of complete papers: increasing positions, each complete, every complete position present |
| CitationsOutput.LoadAllExactly | data-processing/entities/citations/commands/write_citations_output.py:37-93 | `load` yields exactly one item per complete paper, in the order of the ids: item j is the data of the j-th complete paper |
| CitationsOutput.LoadAllSkips | data-processing/entities/citations/commands/write_citations_output.py:42-80 | `load` yields no more items than there are papers, and nothing when every paper lacks an input |
| CitationsOutput.Load | data-processing/entities/citations/commands/write_citations_output.py:37-93 | the loop yields exactly `LoadAll`, in paper order |

## Left out

- cv2 image loading and the BGR to HSV conversion: images arrive as HSV
  grids. A file `cv2.imread` cannot read is not modelled.
- `extract_bounding_boxes` and `get_output_files`: their code is not
  part of this model. The extractor is a function parameter and the
  output paths are an input.
- The file system of `locate_entities`: each existing diff directory is
  given as its listing, in the order `os.listdir` returns; that order is
  arbitrary and is taken as given. Joining paths with `os.path.join` is
  not modelled; directories are keyed by the output file's path.
- Insertion order of the keys of `entity_locations`: the model keeps it
  as a map, so key order is not modelled (each list's order is).
- `entity_hues` is a list of (id, hue) pairs. The per-entity lemmas
  require distinct ids, which a Python dict guarantees.
- Images.HasHueShifted: requires both rasters to have the same shape;
  numpy's broadcasting and its shape errors are not modelled.
- Images.HasHueShifted: `int16` hue arithmetic and floating point are
  real arithmetic here. So are the hue and tolerance.
- Decimal.ParseInt: `int()` also accepts non-ASCII Unicode digits; the
  model accepts only `0`-`9`.
- Logging calls in both files.
- `load_located_citations` and the CSV loader `load_from_csv`: their code
  is not part of this model. Their results are inputs, with `None` for a
  missing file.
- `ast.literal_eval` of the authors field, and the `KeyError` for an
  author without a name: author names arrive already parsed.
- The JSON encoding of the container and `dataclasses.asdict`: the
  written file holds the container as a value.
- The fields of `SerializableReference` other than `s2_id` and
  `authors`: they are carried unchanged as opaque text.
- The batch-command scaffolding (`get_name`, `get_description`,
  `get_arxiv_ids_dirkey`, `process`) has no logic of its own.
- `os.path.exists(output_file_name)` is membership in
  `FileSystem.files`; there is no path normalisation, and directories and
  permissions are not modelled.
- CitationsOutput.ClusterIdsDistinct: needs non-negative cluster
  indices. With negative ones ids can collide: key `a-` with cluster -1
  and key `a--` with cluster 1 both print as `a---1`.
- CitationsOutput.SavedIdsDistinct: promises distinct ids only when every
  cluster index is non-negative, for the same reason; the cluster indices
  are plain integers in the source.
- The existence check and `open(..., 'w')` of `write_to_file` are one
  atomic step here; a concurrent writer creating the file between the two
  is not modelled, and in the source its file would be overwritten.
- Decimal.ParseIntToString: CPython's `int()` and `str()` raise
  ValueError on decimal text of more than 4300 digits; the model has no
  such limit, so the round trip is stated for every integer.
