# BRL-CAD integer and string cores, in Dafny

This project models the parts of several BRL-CAD sources that are exact
integer, sequence and string logic, and proves what those sources promise
about them:

- **Ttk paned window** (`ttkPanedwindow.c`), in `PanedLayout` and `PanedCommands`.
  - Covers sash shoving up and down, the widget's requested size, and request sizes taken from sash positions.
  - Covers weighted redistribution of the available space: when the requests fit and some weight is positive, every pane gets its request plus delta times its weight, the first panes get one extra unit per weight from the remainder, and a pane whose request and weight are both zero keeps size 0. It also covers weight validation, and the `identify` and `sashpos` commands.
  - Proves the layout invariants stated in the file header and the "AdjustPanes then ComputePositions leaves the sashes in place" claim.
- **Region colour table** (`librt/mater.c`), in `Mater`.
  - Covers the range-list insertion `insert_color` with its `check_overlap` trimming, and the `color_map` lookup with its red default.
  - The list is a `seq<Mater>`.
  - Both the insertion as written and a corrected insertion are modelled; see Findings.
- **BoT exterior faces** (`bot_exterior.c`), in `BotExterior`: the face filter and the command's argument checks.
- **`summary`** (`summary.c`), in `Summary`: flag-letter parsing, counting by type and the name listing.
- **Rhino 3DM importer** (`3dm-g.cpp`), in `RhinoImport`: `itoa`, the per-name region counter, layer and region member maps, group naming and object naming.
- **PostScript display manager** (`dm-ps.c`), in `PsDisplay`: `PS_open`'s option parser and file name, font selection, and the 2D line, vertex and string output.
- **Perspective gatherer** (`PerspectiveGatherer.cpp`), in `Perspective`: the face table, the file-name and stem extraction, and the output name and ray-tracer command for each face.
- **Frame-buffer utilities** (`fb_util.c`), in `FbUtil`: the simulated view and cursor records, `fb_window`, `fb_zoom` and the constant stubs.
- **VRML converter** (`vrml-g.cpp`), in `VrmlConvert`: degenerate-triangle rejection, face grouping, and solid and region naming in `Convert_input`.

Two shared modules support the others:

- `Wrappers`: `Option` and `Result`.
- `Decimal`: C's `%d` formatting and `sscanf("%d")` scanning, with the round trip between them proved.

C integers are modelled as unbounded `int` wherever the source's values stay small. The flag words of `summary` are `bv32`. Output parameters and in-place list surgery are modelled as returned values.

## Model

| member | source | states |
|---|---|---|
| PanedLayout.ShoveUp | src/other/tk/generic/ttk/ttkPanedwindow.c:113-127 | The returned position is the one stored in sash i. Sash 0 is clamped at 0. Each earlier sash on the chain ends at least a sash thickness before the next. The position only moves up to (i·thickness) when that is larger. Later panes are untouched. When sash i−1 is already a thickness away, only sash i moves, to the requested position. |
| PanedLayout.ShoveDown | src/other/tk/generic/ttk/ttkPanedwindow.c:133-146 | The sentinel sash never moves, and for the last pane its position is returned with nothing changed. Otherwise sash i ends at least a thickness before sash i+1, at the requested position or pushed back from the sentinel. Earlier panes are untouched. When sash i+1 is already a thickness away, only sash i moves, to the requested position. |
| PanedLayout.AdjustPanes | src/other/tk/generic/ttk/ttkPanedwindow.c:196-208 | Each request size becomes the pane's size from the sash positions, clamped at 0. Sashes and weights are kept. |
| PanedLayout.Place | src/other/tk/generic/ttk/ttkPanedwindow.c:262-280 | Placement keeps request sizes and weights and starts at or after the given position. |
| PanedLayout.Distribute | src/other/tk/generic/ttk/ttkPanedwindow.c:247-259 | With no weight there is nothing to share (delta and remainder 0). Otherwise delta·totalWeight + remainder equals the difference. |
| PanedLayout.PlaceShares | src/other/tk/generic/ttk/ttkPanedwindow.c:262-280 | With non-negative requests, weights, delta and remainder, each placed pane's size lies between request + delta·weight and that plus its weight. |
| PanedLayout.PlaceNoLeftover | src/other/tk/generic/ttk/ttkPanedwindow.c:262-280 | With no remainder, each placed pane's size is exactly request + delta·weight. |
| PanedLayout.PlaceGreedy | src/other/tk/generic/ttk/ttkPanedwindow.c:262-280 | The remainder is handed out front to back: once a pane gets less than its full weight in extra units, every later pane gets none. |
| PanedLayout.PlaceEnd | src/other/tk/generic/ttk/ttkPanedwindow.c:262-280 | The last placed sash lies at the start + the requests + delta·totalWeight + min(remainder, totalWeight) + the sash gaps. |
| PanedLayout.ComputePositionsPlaces | src/other/tk/generic/ttk/ttkPanedwindow.c:247-287 | When the requests and gaps fit and the total weight is positive, delta and the remainder are non-negative. The final ShoveUp leaves the placement as it is, and its last sash is the available size. |
| PanedLayout.ComputePositionsShares | src/other/tk/generic/ttk/ttkPanedwindow.c:225-287 | When the requests and gaps fit in the available size and the total weight is positive: delta ≥ 0, the last sash lands exactly at the available size, so the final shove changes nothing. Each pane's size lies in [request + delta·weight, request + delta·weight + weight]. A pane with request 0 gets size 0. |
| PanedLayout.ComputePositions | src/other/tk/generic/ttk/ttkPanedwindow.c:225-287 | Request sizes and weights are kept, and an empty pane list is left alone. How the space is shared is stated by ComputePositionsShares. |
| PanedLayout.PaneConfigured | src/other/tk/generic/ttk/ttkPanedwindow.c:343-353 | A negative weight is an error and is reset to 0; otherwise the pane is accepted unchanged. The weight is non-negative afterwards. |
| PanedLayout.DistributeNormalised | src/other/tk/generic/ttk/ttkPanedwindow.c:247-260 | With C's truncating division corrected for negatives, difference = delta·totalWeight + remainder with 0 ≤ remainder < totalWeight. |
| PanedLayout.ShoveUpKeepsGaps | src/other/tk/generic/ttk/ttkPanedwindow.c:113-127 | Shoving sash i up keeps a sash thickness between all sashes up to i. |
| PanedLayout.ShoveDownKeepsGaps | src/other/tk/generic/ttk/ttkPanedwindow.c:133-146 | Shoving sash i down keeps a sash thickness between all sashes from i on. |
| PanedLayout.ShoveUpPacked | src/other/tk/generic/ttk/ttkPanedwindow.c:104-127 | Earlier sashes move only as needed. Each sash before i either keeps its pane or ends exactly one thickness before the next sash. |
| PanedLayout.ShoveDownPacked | src/other/tk/generic/ttk/ttkPanedwindow.c:129-146 | Later sashes move only as needed. Each sash after i either keeps its pane or starts exactly one thickness after the previous sash. |
| PanedLayout.PlaceGapped | src/other/tk/generic/ttk/ttkPanedwindow.c:262-280 | The placement loop leaves every pane a non-negative size. |
| PanedLayout.GappedLowerBound | src/other/tk/generic/ttk/ttkPanedwindow.c:43-57 | Under the invariants sash k lies at or after k·thickness. |
| PanedLayout.GappedUpperBound | src/other/tk/generic/ttk/ttkPanedwindow.c:43-57 | Under the invariants sash k leaves room for the sashes after it before the sentinel. |
| PanedLayout.ComputePositionsValid | src/other/tk/generic/ttk/ttkPanedwindow.c:43-57 | After ComputePositions the header's invariants hold. The sentinel is the available size whenever that is at least (n−1)·thickness, and (n−1)·thickness otherwise. |
| PanedLayout.PlaceThenShoveValid | src/other/tk/generic/ttk/ttkPanedwindow.c:262-287 | Placement followed by the final ShoveUp of the sentinel yields a valid layout for any remainder and delta. |
| PanedLayout.ShoveUpToEnd | src/other/tk/generic/ttk/ttkPanedwindow.c:283-287 | Shoving the sentinel to the available size from a gapped placement pins it there, or at (n−1)·thickness. |
| PanedLayout.PlaceIgnoresSashes | src/other/tk/generic/ttk/ttkPanedwindow.c:262-280 | Placement depends only on request sizes and weights, not on the old sash positions. |
| PanedLayout.SumsOfSameRequests | src/other/tk/generic/ttk/ttkPanedwindow.c:236-245 | The request sum and total weight depend only on request sizes and weights. |
| PanedLayout.ComputePositionsIgnoresSashes | src/other/tk/generic/ttk/ttkPanedwindow.c:225-287 | ComputePositions gives the same layout for panes that differ only in their sash positions. |
| PanedLayout.ContinuousResize | src/other/tk/generic/ttk/ttkPanedwindow.c:28-33 | Resizing twice equals resizing once to the final size: the layout is recomputed from requests alone. |
| PanedLayout.PlaceFitted | src/other/tk/generic/ttk/ttkPanedwindow.c:262-280 | With nothing to redistribute, placement puts every sash back where the request sizes put it. |
| PanedLayout.FittedSum | src/other/tk/generic/ttk/ttkPanedwindow.c:152-186 | For fitted panes the sum of the first k requests is sash k−1 minus (k−1) sash thicknesses. |
| PanedLayout.AdjustThenCompute | src/other/tk/generic/ttk/ttkPanedwindow.c:188-195 | On a valid layout, AdjustPanes followed by ComputePositions at the same size leaves every sash where it was. |
| PanedLayout.ComputeFitted | src/other/tk/generic/ttk/ttkPanedwindow.c:225-287 | A valid, fitted layout is a fixed point of ComputePositions at its own size. |
| PanedLayout.AdjustedIsFitted | src/other/tk/generic/ttk/ttkPanedwindow.c:196-208 | AdjustPanes on a valid layout gives fitted panes with non-negative weights that still satisfy the invariants. |
| PanedLayout.DistributeZero | src/other/tk/generic/ttk/ttkPanedwindow.c:247-260 | A zero difference distributes nothing. |
| PanedLayout.ShoveUpInPlace | src/other/tk/generic/ttk/ttkPanedwindow.c:113-127 | Shoving the sentinel to its own position on a valid layout changes nothing. |
| PanedCommands.PanedSize | src/other/tk/generic/ttk/ttkPanedwindow.c:152-186 | Along the orientation: the request sum plus (n−1) sash thicknesses. Across it: the largest slave request, never below 0. |
| PanedCommands.Identify | src/other/tk/generic/ttk/ttkPanedwindow.c:626-635 | Returns the first sash (never the sentinel) whose extent holds the position, or nothing exactly when no sash does. |
| PanedCommands.SashposCommand | src/other/tk/generic/ttk/ttkPanedwindow.c:688-716 | An index outside 0..n−2 is an error. Without a new position, the current one is returned unchanged. With one, the panes are re-adjusted, weights and the sentinel are kept, and the sash's final position is returned. |
| PanedCommands.SashposKeepsLayout | src/other/tk/generic/ttk/ttkPanedwindow.c:688-716 | Moving a sash in a valid layout keeps it valid for the same size, and the result is a fixed point of ComputePositions. |
| PanedCommands.ShoveUpValid | src/other/tk/generic/ttk/ttkPanedwindow.c:707-708 | Shoving a sash up from a valid layout gives a valid layout with non-negative weights. |
| PanedCommands.ShoveDownValid | src/other/tk/generic/ttk/ttkPanedwindow.c:709-711 | Shoving a sash down from a valid layout gives a valid layout with non-negative weights. |
| PanedCommands.SashposLands | src/other/tk/generic/ttk/ttkPanedwindow.c:707-716 | A requested position within the room the other sashes leave is exactly where the sash ends up. |
| Mater.FirstMatch | librt/mater.c:199-217 | The entry found holds the id. Nothing is found exactly when no entry holds it. |
| Mater.ColorMap | librt/mater.c:185-217 | color_map assigns the first entry whose range holds the id, or the default (0..32767, red) when none does. |
| Mater.OrderedChain | librt/mater.c:37-41 | In an ascending, non-overlapping list every entry ends before every later one starts. |
| Mater.OrderedUnique | librt/mater.c:37-41 | In such a list at most one entry holds any id. |
| Mater.BelowFirst | librt/mater.c:92-97 | No entry of an ordered list holds an id below its head. |
| Mater.CheckOverlap | librt/mater.c:161-182 | The new entry comes first and the list grows by at most one. |
| Mater.CheckOverlapTrims | librt/mater.c:161-182 | check_overlap drops the followers the new range covers entirely and raises the low end of the first one it covers in part to new.high+1. The rest is untouched. |
| Mater.InsertAsWritten | librt/mater.c:85-183 | insert_color with its boundary tests as written: the new entry is in the list, which grows by at most two. |
| Mater.WalkAsWritten | librt/mater.c:104-152 | The list walk as written: the new entry is placed and the list grows by at most two. |
| Mater.Insert | librt/mater.c:85-183 | Corrected insertion: the new entry is in the list, which grows by at most two. |
| Mater.Walk | librt/mater.c:104-152 | The corrected walk places the new entry and keeps the head's low end. |
| Mater.InsertAsWrittenHead | librt/mater.c:92-133 | insert_color as written, at the head: a range below the head is prepended. One starting below the head and reaching it goes to the overlap pass. One with the head's low end reaching at least as far overwrites the head. One strictly inside splits it. |
| Mater.WalkAsWrittenSkips | librt/mater.c:104-152 | On an ordered list, the as-written walk keeps every entry before one whose low end is at or below the new low end, and continues from there. |
| Mater.InsertAsWrittenAt | librt/mater.c:104-152 | insert_color as written, at any entry k of an ordered list where the walk stops. The same low end reaching at least as far overwrites entry k. Strictly inside splits it. Overlapping its top shortens it. An entry with the same low end that reaches further has its high end set to new.low−1, below its own low end. An entry ending at or below the new low end, followed by none starting at or below it, gets the new range appended after it. Each case ends with the overlap pass on the entries after k. |
| Mater.InsertHeadCases | librt/mater.c:92-133 | A range below the head becomes the new head with the rest unchanged. One with the head's low end reaching at least as far overwrites it. One strictly inside the head splits it into [low, new.low−1], new, [new.high+1, high]. |
| Mater.AddRecord | librt/mater.c:61-77 | color_addrec as written: the record's range, colour and address go through insert_color as written. The list holds that entry and grows by at most two. |
| Mater.AddRecordCorrected | librt/mater.c:61-77 | The same record passed to the corrected insertion: the list holds that entry and grows by at most two. |
| Mater.CheckOverlapOrdered | librt/mater.c:161-182 | Trimming after an ordered tail keeps the list ordered. |
| Mater.CheckOverlapPaints | librt/mater.c:161-182 | After trimming, ids inside the new range get its shade and all other ids keep the shade they had. |
| Mater.WalkOrdered | librt/mater.c:104-152 | The corrected walk keeps the list ordered. |
| Mater.WalkPaints | librt/mater.c:104-152 | The corrected walk paints exactly the new range with the new shade. |
| Mater.WalkStopsPaints | librt/mater.c:104-152 | The same, for the entry where the walk stops. |
| Mater.ShortenPaints | librt/mater.c:134-145 | Shortening the left neighbour and trimming paints exactly the new range. |
| Mater.AppendAfterPaints | librt/mater.c:146-152 | Appending after an entry that ends below the new range paints exactly the new range. |
| Mater.SplitPaints | librt/mater.c:115-133 | The three-way split paints exactly the new range and keeps the old shade on both remaining pieces. |
| Mater.InsertOrdered | librt/mater.c:37-41 | Corrected insertion of a well-formed range keeps the list strictly ascending and non-overlapping. |
| Mater.InsertPaints | librt/mater.c:85-183 | After corrected insertion, ids in the new range map to the new shade and all others to what they mapped to before. |
| Mater.AddRecordThenMap | librt/mater.c:61-77 | After the corrected color_addrec the list is still ordered. color_map gives the record's colour inside its range and the old colour elsewhere. |
| Mater.WalkAgreesOffBoundaries | librt/mater.c:104-152 | The walk as written and the corrected walk agree unless an entry ends exactly at the new low end or shares it and reaches further. |
| Mater.InsertAgreesOffBoundaries | librt/mater.c:85-183 | insert_color as written equals the corrected insertion whenever no entry meets the new range in one of those two boundary cases. |
| Mater.AddRecordAsWrittenThenMap | librt/mater.c:61-77 | Away from the two boundary cases, color_addrec as written keeps the list ordered. color_map then gives the record's colour inside its range and the old colour elsewhere. |
| Mater.AddRecordAsWrittenOverlaps | librt/mater.c:61-77 | color_addrec as written, given the record 10..20 after the entry 0..10, leaves both entries whole, and the list is no longer ordered. |
| Mater.AsWrittenTouchingOverlaps | librt/mater.c:134-152 | Inserting (10,20) after (0,10) as written leaves two entries sharing id 10. The list is no longer ordered and id 10 keeps the old colour. |
| Mater.AsWrittenSameLowInverts | librt/mater.c:105-145 | Inserting (5,10) over (5,20) as written yields the inverted entry (5,4). Ids 11..20 lose their colour, which the corrected insertion keeps. |
| BotExterior.ExteriorFace | src/libged/bot/bot_exterior.c:38-46 | A face is exterior exactly when the BoT is present and its index is in 0..9. |
| BotExterior.ExteriorOf | src/libged/bot/bot_exterior.c:61-83 | The exterior faces among the first k, in order, are at most k. |
| BotExterior.ExteriorOfIsPrefix | src/libged/bot/bot_exterior.c:38-46 | Because exterior_face holds exactly for indices below 10, the exterior faces are the first min(k, 10). |
| BotExterior.BotExteriorFaces | src/libged/bot/bot_exterior.c:49-96 | A null BoT gives 0. With none or all faces exterior, 0 is returned and the BoT is unchanged. Otherwise the faces are exactly the exterior ones in order, and the count removed is returned. Mode and vertices never change. |
| BotExterior.BotExteriorCommand | src/libged/bot/bot_exterior.c:99-156 | No arguments is an error and one gives help. Any other count but three is a usage error. A missing or non-BoT object, or a plate-mode BoT, is rejected. Otherwise the filtered BoT is written under the new name with the faces eliminated. |
| Summary.ParseFlags | src/libged/summary.c:61-75 | Succeeds exactly when every letter is p, r or g. The flags are then the OR of those present. An error names an offending letter. |
| Summary.MaskJoin | src/libged/summary.c:61-75 | ORing the flags of two letter sets gives the flags of their union. |
| Summary.ParseFlagsSetOnly | src/libged/summary.c:61-75 | Two strings with the same letters parse alike, whatever the order and repetition. |
| Summary.CountWith | src/libged/summary.c:99-111 | A count of entries never exceeds the directory size. |
| Summary.CombinationsSplit | src/libged/summary.c:99-111 | Regions plus non-region combinations are exactly the combinations, never counted twice. |
| Summary.Matching | src/libged/summary.c:118-135 | The listing has at most one name per entry. |
| Summary.MatchingMembers | src/libged/summary.c:118-133 | A name is listed exactly when some entry has that name and a flag in common with the request. |
| Summary.MatchingNothing | src/libged/summary.c:118-133 | Flag 0 lists nothing. |
| Summary.Tally | src/libged/summary.c:99-111 | The counting loop gives the primitive, region and non-region combination counts. |
| Summary.Collect | src/libged/summary.c:118-135 | The listing loop gives exactly the matching names in directory order. |
| Summary.DirSummary | src/libged/summary.c:89-137 | Primitives, regions and combinations are counted as above, the total is their sum, and the listing is the matching names. |
| Summary.SummaryCommand | src/libged/summary.c:38-79 | No argument is an error, one argument summarises with no listing, and more than two is a usage error. With two, the result succeeds exactly when the letters parse, and the listing uses their flags. |
| RhinoImport.Itoa | src/conv/3dm/3dm-g.cpp:55-62 | The decimal text of a number is non-empty and scans back to the number. |
| RhinoImport.Truncate | src/conv/3dm/3dm-g.cpp:206 | A bounded copy, counting one byte per character, is a prefix shorter than the buffer, and the whole string when it fits. |
| RhinoImport.RegionCnt | src/conv/3dm/3dm-g.cpp:81-95 | The first sighting of a name counts 1 and each later one the previous count plus 1. Other names' counts and the other tables are unaffected. |
| RhinoImport.CountAllOccurrences | src/conv/3dm/3dm-g.cpp:81-95 | After counting a list of names, a name has a count exactly when it occurs, and the count is its number of occurrences. |
| RhinoImport.MapLayer | src/conv/3dm/3dm-g.cpp:116-136 | The first name for a uuid and the first uuid for a name are kept. The layer's member list is created empty if absent, and its name is appended to the parent's list, created if absent. Other lists are unchanged. |
| RhinoImport.ProcessLayers | src/conv/3dm/3dm-g.cpp:194-212 | The layer table leaves the region count alone and keeps every name already recorded. Every layer's uuid gets a name, and every layer's truncated name gets a uuid. |
| RhinoImport.ProcessLayersMembers | src/conv/3dm/3dm-g.cpp:194-212 | After the layer table, a uuid has a member list exactly when some layer mentions it. The list holds that uuid's child layer names in table order. |
| RhinoImport.MentionedSnoc | src/conv/3dm/3dm-g.cpp:194-212 | A uuid is mentioned by a table exactly when the front mentions it or the last layer names it as its own or its parent. |
| RhinoImport.ChildNamesUnmentioned | src/conv/3dm/3dm-g.cpp:194-212 | An unmentioned uuid has no children. |
| RhinoImport.ProcessLayersFirstName | src/conv/3dm/3dm-g.cpp:194-212 | A uuid's recorded name is the truncated name of the first layer with that uuid. |
| RhinoImport.ProcessLayersUnseen | src/conv/3dm/3dm-g.cpp:194-212 | A uuid no layer has gets no name. |
| RhinoImport.MapRegion | src/conv/3dm/3dm-g.cpp:98-113 | The region name is appended to the layer's member list if it has one, and nothing changes otherwise. |
| RhinoImport.GroupNameAsWritten | src/conv/3dm/3dm-g.cpp:147-159 | Group naming as written: the root is "all" and a named layer keeps its name. The name is empty exactly for an unnamed, non-root layer. |
| RhinoImport.GroupName | src/conv/3dm/3dm-g.cpp:147-159 | Corrected group naming is never empty. An unnamed layer is "g" followed by the group counter in decimal. |
| RhinoImport.GroupNameEmptyAsWritten | src/conv/3dm/3dm-g.cpp:157-158 | For an unknown uuid the code as written names the group "", where "g1" was intended. |
| RhinoImport.NameObject | src/conv/3dm/3dm-g.cpp:331-374 | Solid and region names are base+".s" and base+".r". With uuid naming the base is the uuid, and a named object keeps its name. An unnamed object whose layer index is above 0 and whose truncated layer name is neither "" nor "rhino" is named after the layer, numbered by RegionCnt. Every other unnamed object is "rhino" numbered by the global counter, which advances exactly then. |
| RhinoImport.SameLayerNamesDiffer | src/conv/3dm/3dm-g.cpp:343-366 | Two unnamed objects named in turn after the same layer get different names. |
| RhinoImport.GenericNamesDistinct | src/conv/3dm/3dm-g.cpp:358-374 | Different counter values give different generic names. |
| PsDisplay.ApplyOption | libdm/dm-ps.c:149-219 | f, t and c replace the font, title and creator. s records the size. l sets the line width when the text scans as an integer and leaves it alone otherwise. Nothing else changes. |
| PsDisplay.ParseOptions | libdm/dm-ps.c:147-226 | Options are consumed only while the argument starts with '-'. What remains is a suffix of the arguments that does not start with an option. Errors are usage errors, and the file name is untouched. |
| PsDisplay.AttachedOption | libdm/dm-ps.c:147-226 | An option with an attached value applies that value to the settings and parsing goes on with the next argument. |
| PsDisplay.SeparateOption | libdm/dm-ps.c:147-226 | An option whose value is the next argument applies that value and parsing goes on after it. |
| PsDisplay.TitleThenFile | libdm/dm-ps.c:139-243 | "-t X file" opens file with title X and every other setting at its default. |
| PsDisplay.AttachedOrSeparate | libdm/dm-ps.c:149-219 | An attached value ("-fX") and the same value in the next argument ("-f X") parse identically. |
| PsDisplay.MissingValue | libdm/dm-ps.c:154-158 | An option letter with no next argument, or one starting with '-', is a usage error. |
| PsDisplay.UnknownOption | libdm/dm-ps.c:220-223 | An unknown letter, or a bare "-", is a usage error. |
| PsDisplay.PsOpen | libdm/dm-ps.c:128-243 | The instance is named .dm_ps<count> and dm_ps<count+1>, and the counter advances by two. It succeeds exactly when the options parse, a file name follows and the file opens. The first remaining argument is the file name, and having none is the no-filename error. |
| PsDisplay.OpenWithDefaults | libdm/dm-ps.c:139-144 | With only a file name the settings are Courier, "No Title", "LIBDM dm-ps" and line width 4. |
| PsDisplay.PathNamesDiffer | libdm/dm-ps.c:130-131 | Two instances opened in a row get different path names. |
| PsDisplay.FontFor | libdm/dm-ps.c:474-489 | Size 1 selects DFntM, size 2 DFntL, size 3 FntH, and any other size DFntS, each exactly for those sizes. All are prologue fonts. |
| PsDisplay.FontsDistinct | libdm/dm-ps.c:474-489 | Sizes 1, 2 and 3 get three different fonts. |
| PsDisplay.DrawString2D | libdm/dm-ps.c:456-495 | Without an open file it is an error. Otherwise the text selects the size's font, gives the string in parentheses, then the converted point as "%d %d", and ends with " moveto show". |
| PsDisplay.DrawLine2D | libdm/dm-ps.c:501-523 | Without an open file it is an error. Otherwise the text starts a new path with a moveto at the converted first point. Then comes the converted second point, and the text ends with " lineto stroke". |
| PsDisplay.DrawLine2DDeterminesPoints | libdm/dm-ps.c:517-520 | The written line determines both converted end points: equal texts come only from equal points. |
| PsDisplay.DrawString2DDeterminesPoint | libdm/dm-ps.c:491-492 | For the same string and size, the written text determines the converted point it is shown at. |
| PsDisplay.DrawVertex2D | libdm/dm-ps.c:525-531 | A vertex is the line from the point to itself: a moveto and a lineto of the same point. |
| Perspective.Row | PerspectiveGatherer.cpp:4-19 | A table row keeps its face and dimensions, and its image lies in the image directory. |
| Perspective.FaceTable | PerspectiveGatherer.cpp:4-19 | Exactly the keys '0'..'8' have a row, each under its face's key. Only the detailed view has no dimensions. |
| Perspective.FaceTableOneToOne | PerspectiveGatherer.cpp:4-19 | Different keys select different faces. |
| Perspective.FaceTableCoversEveryFace | PerspectiveGatherer.cpp:4-19 | Every face is in the table under its key. |
| Perspective.AfterLast | PerspectiveGatherer.cpp:21-23 | The position after the last separator (or 0), with no separator after it. |
| Perspective.ExtractFileName | PerspectiveGatherer.cpp:21-23 | The file name is the suffix after the last '/' or '\' and contains neither. It is the whole path when there is none. |
| Perspective.Stem | PerspectiveGatherer.cpp:32 | The stem is the name before its last '.', or the whole name without one. |
| Perspective.Angles | PerspectiveGatherer.cpp:48-82 | Azimuth and elevation are degrees in [0, 360). The elevation is 0 exactly for the four side views. |
| Perspective.AnglesDistinct | PerspectiveGatherer.cpp:48-82 | Different rendered faces are seen from different angle pairs. |
| Perspective.Suffix | PerspectiveGatherer.cpp:48-87 | The suffix is empty exactly for the two mirrored faces, which fall to the default case. Any other is '_' + name + ".png". |
| Perspective.SuffixDistinct | PerspectiveGatherer.cpp:48-82 | Different rendered faces write files with different suffixes. |
| Perspective.RenderPerspective | PerspectiveGatherer.cpp:25-105 | The output name is "output/" + stem + the face's suffix. Each face has its rtedge angles, the detailed view uses rt's ambient occlusion, and the mirrored faces have no command. |
| Perspective.StemHasNoSeparator | PerspectiveGatherer.cpp:21-32 | The stem of the extracted file name holds no '/' or '\'. |
| Perspective.NoSeparatorNoParent | PerspectiveGatherer.cpp:36-39 | A text without separators never contains "../". |
| Perspective.NeverRejected | PerspectiveGatherer.cpp:32-39 | The "../" rejection can never fire, because the stem has no '/'. |
| Perspective.MirroredFacesUnhandled | PerspectiveGatherer.cpp:84-87 | The mirrored faces get an empty command and the output name "output/" + stem. |
| Perspective.PlainFileName | PerspectiveGatherer.cpp:25-105 | For a plain file name without directory or extension, the output is "output/" + name + suffix. |
| Perspective.OutputStaysInOutputDir | PerspectiveGatherer.cpp:32-87 | Whatever the input path, the output file lies directly in output/. |
| FbUtil.SimView | src/libfb/fb_util.c:41-52 | Storing the view returns 0 and keeps the cursor and size. |
| FbUtil.SimGetview | src/libfb/fb_util.c:59-70 | Reading the view returns 0. |
| FbUtil.SimCursor | src/libfb/fb_util.c:77-87 | Storing the cursor returns 0 and keeps the view and size. |
| FbUtil.SimGetcursor | src/libfb/fb_util.c:94-104 | Reading the cursor returns 0. |
| FbUtil.ViewRoundTrip | src/libfb/fb_util.c:41-70 | Reading the view back gives exactly the center and zoom stored. |
| FbUtil.GetviewThenView | src/libfb/fb_util.c:41-70 | Storing the view just read changes nothing. |
| FbUtil.CursorRoundTrip | src/libfb/fb_util.c:77-104 | Reading the cursor back gives exactly the mode and position stored. |
| FbUtil.GetcursorThenCursor | src/libfb/fb_util.c:77-104 | Storing the cursor just read changes nothing. |
| FbUtil.ViewAndCursorIndependent | src/libfb/fb_util.c:41-87 | Each setter leaves the other getter's answer alone, and the two setters commute. |
| FbUtil.Reset | src/libfb/fb_util.c:109-117 | fb_reset returns 0 and changes nothing, even for a null buffer. |
| FbUtil.Viewport | src/libfb/fb_util.c:120-128 | fb_viewport returns 0 and changes nothing. |
| FbUtil.Scursor | src/libfb/fb_util.c:168-179 | fb_scursor returns 0 and changes nothing. |
| FbUtil.Window | src/libfb/fb_util.c:131-146 | A null buffer gives 0. Otherwise the center is replaced, and the zoom and cursor are kept. |
| FbUtil.Zoom | src/libfb/fb_util.c:149-165 | A null buffer gives 0. Otherwise the zoom is replaced, and the center and cursor are kept. |
| FbUtil.WindowAndZoomInPlace | src/libfb/fb_util.c:131-165 | Windowing to the current center, or zooming to the current zoom, changes nothing. |
| FbUtil.WindowZoomCommute | src/libfb/fb_util.c:131-165 | fb_window and fb_zoom commute. |
| FbUtil.WindowThenZoomIsView | src/libfb/fb_util.c:131-165 | A window followed by a zoom sets the whole view, as one fb_sim_view would. |
| VrmlConvert.CheckDegenerate | src/conv/vrml/vrml-g.cpp:78-91 | The result is 0 exactly when two of the three indices are equal, and 1 otherwise. |
| VrmlConvert.TriplesUpTo | src/conv/vrml/vrml-g.cpp:114-131 | The first m complete triples of the index list, in order. |
| VrmlConvert.Triples | src/conv/vrml/vrml-g.cpp:114-131 | All complete triples of the index list, with a trailing partial triple ignored. |
| VrmlConvert.KeepNonDegenerate | src/conv/vrml/vrml-g.cpp:114-131 | The kept faces are no more than the triples. |
| VrmlConvert.KeepNonDegenerateMembers | src/conv/vrml/vrml-g.cpp:114-131 | A face is kept exactly when it is one of the triples and not degenerate. |
| VrmlConvert.CollectFaces | src/conv/vrml/vrml-g.cpp:114-131 | The face loop appends exactly the non-degenerate complete triples, in order, and bot_fcurr is their number. |
| VrmlConvert.ConvertInput | src/conv/vrml/vrml-g.cpp:93-165 | A polygon node with no surviving face, or an unsupported node type, restores the counter and writes nothing. Otherwise one object named s<n> and r<n>, for the advanced counter n, is appended with the current ident, and both counters advance. |
| VrmlConvert.StepKeepsConsistent | src/conv/vrml/vrml-g.cpp:93-165 | One conversion step keeps object k named s<k> and r<k> with ident 1000+k, and the counters in step with the objects written. |
| VrmlConvert.ConvertAll | src/conv/vrml/vrml-g.cpp:64-66 | From objnumb −1 and id_no 1000, converting any node list keeps that naming consistent and writes at most one object per node. |
| VrmlConvert.SolidName | src/conv/vrml/vrml-g.cpp:104-112 | The solid name is 's' followed by at least one character of the number's text. |
| VrmlConvert.RegionName | src/conv/vrml/vrml-g.cpp:104-112 | The region name is 'r' followed by at least one character of the number's text. |
| VrmlConvert.NamesScanBack | src/conv/vrml/vrml-g.cpp:104-112 | After the one-letter prefix, either name reads back as exactly the object number. |
| VrmlConvert.NamesDistinct | src/conv/vrml/vrml-g.cpp:104-112 | Solid and region names never collide, and different numbers give different names. |
| VrmlConvert.WrittenNamesUnique | src/conv/vrml/vrml-g.cpp:104-158 | Different objects written in one run have different solid names, region names and idents. |
| VrmlConvert.RegionNameAsWritten | src/conv/vrml/vrml-g.cpp:101-108 | sprintf into the five-byte rname, as written: when it fits, the name is r<n>. |
| VrmlConvert.RegionNameOverflowsAsWritten | src/conv/vrml/vrml-g.cpp:101-108 | "r999" fits in rname, but "r1000" and its terminator need six bytes. |

## Left out

- Tk geometry management, drawing and events are not modelled: `PlacePanes`, `PanedDisplay`, slave requests and the Tcl argument parsing of `identify` and `sashpos`. Their integer results become parameters.
- The `summary` listing order is modelled as directory order; the hash-bucket traversal order of the real directory is left out.
- The `fprintf` diagnostics of mater.c, the 16-bit range of its ids, and the `color_map` guard against a missing region are left out. The material handle string is modelled as text.
- `rt_bot_condense`, the database lookup and read-only checks and the database write of `ged_bot_exterior` are left out; the database is a map from names to objects.
- openNURBS reading, the BuildHierarchy recursion and the `mk_*` writes of 3dm-g.cpp are left out, as is `itoa`'s ten-byte buffer, which holds every number the importer reaches.
- The PostScript prologue, `fopen` (the `canOpen` parameter), the floating-point `-s` scale (kept as its text), the GED_TO_PS conversion (the `toPs` parameter) and `PS_load_startup` are left out of dm-ps.c.
- `system()`, the ray-tracer runs and file probing of PerspectiveGatherer.cpp are left out; only the command text is modelled.
- FbUtil.Window: the device's own view routines are modelled by the simulated ones. fb_generic.c, which dispatches to a device, is not part of this model. The FB_CK_FB magic checks are left out.
- `Add_vert`, the floating-point vertices, `mk_bot` and the other `mk_*` calls, and the `bot_faces` reallocation of vrml-g.cpp are left out. The vertex indices `Add_vert` returns are the parameter `vertexIds`.
- PanedLayout.ComputePositionsShares: states how the space is shared by weight only when the requests and sash gaps fit and some weight is positive. When the panes must shrink, or no pane has weight, only the layout invariants of ComputePositionsValid are stated.
- VrmlConvert.SolidName: the same five-byte overflow hits `sname` at object 10000. Only the region name, which overflows first, is logged as a finding.
- RhinoImport.Truncate: counts one byte per character. bu_strlcpy counts the bytes of the UTF-8 text ON_String produces, so a name with multi-byte characters keeps fewer characters in the source and may be cut inside a character. Text encoding is not modelled.
- VrmlConvert.ConvertAll: every node given is converted. Parse_input's node-type dispatch and parseNodeData's skipping of nodes without vertices happen before Convert_input and are not modelled; the nodes passed stand for those that get through.
- Perspective.FaceTable: the '8' row gives no dimensions, so C++ value-initialises them to the first enumerator. The model records that row as having no dimensions (NoDims) rather than a pair of default values, because the dimensions are never read for that face.
- The OpenMesh documentation search data file (`functions_6.js`) has no behaviour and is not modelled.

## Findings

| source | as written | input that shows it | evidently intended | confidence | as-written member | corrected member |
|---|---|---|---|---|---|---|
| librt/mater.c:134 | `mp->mt_high > newp->mt_low` does not shorten an entry that ends exactly at the new low end | list [(0,10)], insert (10,20) | `>=`: the old entry is shortened to (0,9) so the list stays non-overlapping | not executed | Mater.AsWrittenTouchingOverlaps | Mater.InsertOrdered |
| librt/mater.c:105-106 | an entry with the same low end but a longer range falls through to "shorten", which sets its high to low−1 | list [(5,20)], insert (5,10) | the old entry keeps ids 11..20, starting after the new one | not executed | Mater.AsWrittenSameLowInverts | Mater.InsertPaints |
| src/conv/3dm/3dm-g.cpp:157-158 | `"g" + groupcnt` adds the counter to the string literal's address | an unnamed layer, with groupcnt 1 | the name "g1" | not executed | RhinoImport.GroupNameEmptyAsWritten | RhinoImport.GroupName |
| src/conv/vrml/vrml-g.cpp:101-108 | `rname[5]` receives `sprintf("r%d")` | the 1001st object written, objnumb 1000 | a buffer long enough for any counter value | not executed | VrmlConvert.RegionNameOverflowsAsWritten | VrmlConvert.WrittenNamesUnique |
