# Video frame labeller: the anchor-to-label core

The video frame accessor shows the frames of video folders as rows of
thumbnails. For each folder it keeps two JSON files:
- an *anchor file* (`<folder>_user_points.json`), holding the values the user typed for a few frames;
- a *label file* (`<folder>.json`), holding one label in [0, 1] for every frame.

This project models the logic behind those files and proves its properties:

- **Frame list** (`FrameList`). A folder's frames are its directory entries whose lower-cased name ends in `.jpg`, `.jpeg` or `.png`, sorted ascending. Video folders are the directory entries that are directories, also sorted. A frame's position in this sorted list is its index.
- **Saving a label** (`Anchors`, `Interpolation`, `SaveLabel`, `Viewer.LabelsStore.SaveLabel`). The value is clamped to [0, 1] and written into the anchor file. The anchored frames become (index, value) pairs. A virtual pair (0, 0.0) is added when no pair sits at index 0, and (n-1, 1.0) when none sits at n-1. The pairs are sorted by index. Every frame then gets the value on the straight line between the last pair at or before it and the first pair at or after it, clamped again. The label file is rewritten with the result.
- **Seeding on first view** (`Seeding`). When the index page lists a folder, every frame with no label gets `i/(n-1)`, or `0.0` for a single-frame folder. Existing labels stay.
- **Row paging** (`Paging`, `Viewer.LabelsStore.Index`).
  - The per-folder start offsets are padded with 0 and cut to the folder count.
  - Frames are sampled every 16th for display, and the start is clamped to `max(0, sampled - 7)`.
  - A row has exactly 7 slots; slots past the end are empty.

`Viewer.LabelsStore` models the labels directories as two maps, from (directory, folder) to file contents. Directory listings are passed in as parameters.

Two behaviours of the index route are kept as written:
- It reads the first folder's label file from the requested `labels_dir`. It then switches to the default directory (main.py:101), so it writes every seeded file there and reads every later folder from there.
- `save_label` always lists frames under the default data directory, whatever data directory the page was opened with.

Labels are exact `real` numbers. The model proves these properties:
- labels lie in [0, 1];
- the label file has exactly the frames as keys;
- every anchor is reproduced;
- labels are linear between consecutive control points and monotone when the anchors are;
- seeding is idempotent and matches the no-anchor interpolation.

Two consequences of the code for small folders:
- A single-frame folder still gets the virtual pair (0, 0.0) unless the user anchored frame 0 (`AnchorListSpec`).
- A lone user anchor is interpolated against the virtual ends. It is never copied to every frame, because the one-sided and no-anchor branches are never reached for a non-empty folder (`NeighboursAlwaysFound`).

## Model

| member | source | states |
|---|---|---|
| FrameList.IsImageName | video-frame-accessor/src/main.py:26 | a name is a frame exactly when its ASCII-lower-cased form ends in `.jpg`, `.jpeg` or `.png` |
| FrameList.Filter | video-frame-accessor/src/main.py:25-26 | the list comprehension with a condition: the kept entries, in listing order |
| FrameList.SortNames | video-frame-accessor/src/main.py:25 | Python's `sorted` on names, as an insertion sort in code-point order |
| FrameList.ResolveFrames | video-frame-accessor/src/main.py:24-26 | `get_frames`: the image entries of a folder listing, sorted; the same computation lists the frames in `save_label` at line 177 |
| FrameList.VideoFolders | video-frame-accessor/src/main.py:20-22 | `get_video_folders`: the directory entries of the data directory, sorted |
| FrameList.ResolveFramesSpec | video-frame-accessor/src/main.py:24-26 | the frame list is sorted, holds exactly the entries whose lower-cased name ends in an image extension, keeps each as often as listed, never holds a non-image name, and has no duplicates when the listing has none |
| FrameList.VideoFoldersSpec | video-frame-accessor/src/main.py:20-22 | the folder list is sorted, holds exactly the directory entries, and has no duplicates when the listing has none |
| FrameList.SortedSelection | video-frame-accessor/src/main.py:25-26 | a sorted comprehension is sorted, selects exactly the kept entries with their multiplicities, and keeps distinctness |
| FrameList.FilterCount | video-frame-accessor/src/main.py:25-26 | the comprehension keeps every kept name as often as it was listed and drops the rest |
| FrameList.SortNamesPerm | video-frame-accessor/src/main.py:25 | `sorted` returns a permutation of its input |
| FrameList.InsertNamePerm | video-frame-accessor/src/main.py:25 | one insertion step of the sort adds exactly one copy of the inserted name |
| FrameList.SortNamesSorted | video-frame-accessor/src/main.py:25 | `sorted` returns names in ascending string order |
| FrameList.InsertNameSorted | video-frame-accessor/src/main.py:25 | inserting a name into a sorted list keeps it sorted |
| FrameList.SortedPermutationUnique | video-frame-accessor/src/main.py:25 | two sorted permutations of the same names are equal, so the frame order is determined by the names alone |
| FrameList.NameLeTotal | video-frame-accessor/src/main.py:25 | Python's string order is total |
| FrameList.NameLeTransitive | video-frame-accessor/src/main.py:25 | Python's string order is transitive |
| FrameList.NameLeAntisymmetric | video-frame-accessor/src/main.py:25 | Python's string order is antisymmetric |
| FrameList.DistinctByCount | video-frame-accessor/src/main.py:25-26 | a list in which every name occurs at most once has no duplicates |
| FrameList.CountOfDistinct | video-frame-accessor/src/main.py:25-26 | in a list without duplicates every name occurs at most once |
| Anchors.UserAnchors | video-frame-accessor/src/main.py:195-203 | the (index, clamped value) pairs of the parsable anchored frames among the first i frames, in frame order |
| Anchors.AddIfMissing | video-frame-accessor/src/main.py:206-209 | one guarded append: the pair is appended only when no pair has its index |
| Anchors.WithBoundaries | video-frame-accessor/src/main.py:205-209 | the pair list with (0, 0.0) and then (n-1, 1.0) appended, each only where no pair has that index |
| Anchors.SortByIndex | video-frame-accessor/src/main.py:211 | `sorted(pairs, key=lambda t: t[0])`, a stable insertion sort by index |
| Anchors.AnchorList | video-frame-accessor/src/main.py:195-211 | the sorted pair list the interpolation runs over: user pairs, missing virtual ends, sorted by index |
| Anchors.Clamp | video-frame-accessor/src/main.py:168 | the clamped value lies in [0, 1], equals the input inside that range, and is 0 below and 1 above it |
| Anchors.Upsert | video-frame-accessor/src/main.py:189-190 | the anchor map gains exactly the key `frame`, which holds the clamped value, and every other entry is unchanged |
| Anchors.CollectAnchors | video-frame-accessor/src/main.py:195-203 | the walk over the frames yields the pairs of the anchored frames in frame order |
| Anchors.UserAnchorsSpec | video-frame-accessor/src/main.py:195-203 | a collected pair is exactly an anchored frame with its clamped value, indices strictly increase, and no anchored frame is missed |
| Anchors.BuildAnchorList | video-frame-accessor/src/main.py:195-211 | collecting, adding the missing virtual anchors and sorting yields the anchor list |
| Anchors.AddIfMissingSpec | video-frame-accessor/src/main.py:206-209 | appending a pair only when its index is absent keeps the indices distinct, makes the index present and keeps existing pairs |
| Anchors.AnchoredHasIndex | video-frame-accessor/src/main.py:206-208 | a user anchor at an index makes the "already present" check succeed, so no virtual pair is added there |
| Anchors.BoundariesSpec | video-frame-accessor/src/main.py:205-209 | after injection there is a pair at 0 and one at n-1, indices stay distinct, and each added pair is a virtual anchor where no user anchor was |
| Anchors.InsertByIndexPerm | video-frame-accessor/src/main.py:211 | one insertion step of the sort by index adds exactly one copy of the inserted pair |
| Anchors.InsertByIndexSorted | video-frame-accessor/src/main.py:211 | inserting into a list ordered by index keeps it ordered |
| Anchors.InsertByIndexStrict | video-frame-accessor/src/main.py:211 | inserting a pair with a new index into a strictly increasing list keeps it strictly increasing |
| Anchors.SortByIndexPerm | video-frame-accessor/src/main.py:211 | the sort by index is a permutation |
| Anchors.SortByIndexSpec | video-frame-accessor/src/main.py:211 | the sort orders by index, is a permutation, and orders strictly when the indices are distinct |
| Anchors.SortKeepsElements | video-frame-accessor/src/main.py:211 | a pair is in the sorted list exactly when it was in the unsorted one |
| Anchors.SortBoundedSpec | video-frame-accessor/src/main.py:211 | sorting distinct indices within 0..n-1 that include both ends gives a strictly increasing list from 0 to n-1 |
| Anchors.PairValueInRange | video-frame-accessor/src/main.py:200-209 | every user or virtual pair has a value in [0, 1] |
| Anchors.AnchorListSpec | video-frame-accessor/src/main.py:195-211 | for n >= 1 the list strictly increases from index 0 to n-1, all indices lie in 0..n-1, all values lie in [0, 1], every pair is a user anchor or a virtual one, and every user anchor is present |
| Anchors.EmptyFolderAnchors | video-frame-accessor/src/main.py:205-209 | for an empty folder the list is exactly the two virtual pairs (-1, 1.0) and (0, 0.0), in that order |
| Interpolation.LastAtMost | video-frame-accessor/src/main.py:218-222 | `left` after the inner loop: the last pair of the list whose index is at most i, if any |
| Interpolation.FirstAtLeast | video-frame-accessor/src/main.py:219-224 | `right` after the inner loop: the first pair of the list whose index is at least i, if any |
| Interpolation.Ramp | video-frame-accessor/src/main.py:236 | `i / (n - 1) if n > 1 else 0.0`, the no-anchor fallback, also used by seeding at lines 92 and 98 |
| Interpolation.Lerp | video-frame-accessor/src/main.py:230 | the straight line through two pairs at different indices, evaluated at i |
| Interpolation.Interp | video-frame-accessor/src/main.py:226-236 | the unclamped value: the left value when both sides share an index, the line when they differ, the one side present, else the ramp |
| Interpolation.LabelAt | video-frame-accessor/src/main.py:218-237 | the label of index i: `Interp` of its neighbours, clamped to [0, 1] |
| Interpolation.DenseLabels | video-frame-accessor/src/main.py:214-238 | the `labels` dict after the first k frames: frame j mapped to the label of index j |
| Interpolation.FindNeighbours | video-frame-accessor/src/main.py:218-224 | the inner loop leaves `left` as the last pair at or before i and `right` as the first pair at or after i |
| Interpolation.InterpolateAll | video-frame-accessor/src/main.py:214-238 | the outer loop stores, for every frame, the clamped interpolation between its neighbours, with the fallbacks of the source |
| Interpolation.DenseLabelsSpec | video-frame-accessor/src/main.py:214-238 | the label map has exactly the frames as keys, every value in [0, 1], and frame j gets the label of index j |
| Interpolation.LastAtMostFound | video-frame-accessor/src/main.py:221-222 | when some pair lies at or before i, `left` is set to such a pair |
| Interpolation.FirstAtLeastFound | video-frame-accessor/src/main.py:223-224 | when some pair lies at or after i, `right` is set to such a pair |
| Interpolation.FirstAtLeastSome | video-frame-accessor/src/main.py:223-224 | a set `right` is a pair of the list at or after i |
| Interpolation.FirstAtLeastNone | video-frame-accessor/src/main.py:223-224 | with every pair before i, `right` stays unset |
| Interpolation.LastAtMostAt | video-frame-accessor/src/main.py:221-222 | in a strictly increasing list, `left` is the pair at the last position at or before i |
| Interpolation.FirstAtLeastAt | video-frame-accessor/src/main.py:223-224 | in a strictly increasing list, `right` is the pair at the first position at or after i |
| Interpolation.LerpBetween | video-frame-accessor/src/main.py:230 | between its ends the line stays between the two end values |
| Interpolation.LerpMonotone | video-frame-accessor/src/main.py:230 | the line through a lower and a higher value rises with the index |
| Interpolation.LerpEnds | video-frame-accessor/src/main.py:230 | the line takes the two end values at the two end indices |
| Interpolation.LabelAtPair | video-frame-accessor/src/main.py:226-228 | at a pair's index the label is that pair's value |
| Interpolation.LabelInSegment | video-frame-accessor/src/main.py:226-230 | between two consecutive pairs, ends included, the label is the straight line through them |
| Interpolation.FindSegment | video-frame-accessor/src/main.py:218-230 | every index from the first pair to the last lies between two consecutive pairs |
| Interpolation.LabelsMonotone | video-frame-accessor/src/main.py:226-230 | with pair values non-decreasing along the list, labels do not decrease with the index |
| SaveLabel.Labels | video-frame-accessor/src/main.py:195-238 | the label file a save writes: the dense labels over the sorted anchor list |
| SaveLabel.ControlValue | video-frame-accessor/src/main.py:196-209 | the value frame k is pinned to: its user anchor, else 0.0 at the first frame, else 1.0 at the last, else none |
| SaveLabel.Recompute | video-frame-accessor/src/main.py:195-238 | building the anchor list and interpolating yields the label map, whose keys are exactly the frames and whose values lie in [0, 1] |
| SaveLabel.AnchorListIsControlPoints | video-frame-accessor/src/main.py:195-211 | for a non-empty folder the anchor list holds exactly the control points: user anchors, and 0.0 at the first and 1.0 at the last frame where the user set none |
| SaveLabel.NeighboursAlwaysFound | video-frame-accessor/src/main.py:218-236 | for every frame of a non-empty folder both `left` and `right` are found, so the fallback branches are never taken |
| SaveLabel.LabelOfFrame | video-frame-accessor/src/main.py:216-238 | the label stored under frame j is the label computed for index j |
| SaveLabel.ControlPosition | video-frame-accessor/src/main.py:205-211 | every control point sits in the sorted anchor list |
| SaveLabel.ConsecutiveControlPoints | video-frame-accessor/src/main.py:205-211 | two control points with none between them are adjacent in the sorted anchor list |
| SaveLabel.LabelsAtControlPoints | video-frame-accessor/src/main.py:205-228 | at every control point the label is its value: a user anchor is reproduced exactly, and an unanchored first or last frame gets 0.0 or 1.0 |
| SaveLabel.LabelsBetweenControlPoints | video-frame-accessor/src/main.py:226-230 | strictly between consecutive control points a < b the label is `va + (vb - va) * (i - a) / (b - a)` |
| SaveLabel.RampIsLine | video-frame-accessor/src/main.py:230 | the line from (0, 0.0) to (n-1, 1.0) is `i/(n-1)` |
| SaveLabel.RampEnds | video-frame-accessor/src/main.py:236 | the ramp is 0.0 at the first frame and 1.0 at the last one |
| SaveLabel.NoAnchorsGiveRamp | video-frame-accessor/src/main.py:205-230 | with no usable anchor every frame i gets `i/(n-1)` |
| SaveLabel.RampInterior | video-frame-accessor/src/main.py:226-230 | with no usable anchor an interior frame lies on the line between the virtual anchors |
| SaveLabel.LabelsMonotoneInFrames | video-frame-accessor/src/main.py:226-230 | when anchor values do not decrease along the frames, neither do the labels |
| SaveLabel.LabelsCoverFrames | video-frame-accessor/src/main.py:214-238 | the label file has exactly the frames as keys and every label in [0, 1] |
| SaveLabel.SavedValueShown | video-frame-accessor/src/main.py:189-201 | right after a save, the saved frame's label is the saved value clamped to [0, 1] |
| SaveLabel.UserAnchorsLocal | video-frame-accessor/src/main.py:196-197 | the walk reads only the anchor entries of the folder's frames |
| SaveLabel.StrayAnchorIgnored | video-frame-accessor/src/main.py:189-203 | saving a value under a name that is not a frame of the folder leaves the labels unchanged |
| SaveLabel.FiveFrameExample | video-frame-accessor/src/main.py:195-238 | anchors 0.0, 0.2 and 1.0 at frames 0, 2 and 4 give labels 0.0, 0.1, 0.2, 0.6 and 1.0 |
| SaveLabel.FiveFrameFirstHalf | video-frame-accessor/src/main.py:226-230 | in that example frames 0, 1 and 2 get 0.0, 0.1 and 0.2 |
| SaveLabel.FiveFrameSecondHalf | video-frame-accessor/src/main.py:226-230 | in that example frames 3 and 4 get 0.6 and 1.0 |
| SaveLabel.ThreeFrameExample | video-frame-accessor/src/main.py:205-230 | a single interior anchor 0.5 in three frames gives 0.0, 0.5 and 1.0 |
| Seeding.Seeded | video-frame-accessor/src/main.py:88-98 | the `labels` dict after the seeding loop has visited the first k frames: each unlabelled one gets the ramp value of its position |
| Seeding.Seed | video-frame-accessor/src/main.py:88-98 | the label dict after seeding every frame of the folder |
| Seeding.SeedLabels | video-frame-accessor/src/main.py:88-98 | the seeding loop yields the seeded label map, for both the many-frame and the single-frame branch |
| Seeding.SeededKeys | video-frame-accessor/src/main.py:90-94 | after k steps the keys are the old keys plus the first k frames |
| Seeding.SeededKeeps | video-frame-accessor/src/main.py:93 | an existing label is never overwritten |
| Seeding.SeededRamp | video-frame-accessor/src/main.py:92-94 | an unlabelled frame gets `i/(n-1)` for its first position i |
| Seeding.SeedSpec | video-frame-accessor/src/main.py:88-98 | every frame ends up labelled, old labels survive, and new labels follow the ramp |
| Seeding.RampInRange | video-frame-accessor/src/main.py:92 | ramp values at frame positions lie in [0, 1] |
| Seeding.SeededInRange | video-frame-accessor/src/main.py:88-98 | seeding keeps every label in [0, 1] when the existing ones are |
| Seeding.SeededUnchanged | video-frame-accessor/src/main.py:93 | seeding a folder whose frames are all labelled changes nothing |
| Seeding.SeedIdempotent | video-frame-accessor/src/main.py:88-98 | seeding twice gives the same label file as seeding once |
| Seeding.SeedAgreesWithRecompute | video-frame-accessor/src/main.py:92 | a label file seeded from nothing equals what a save recomputes for a folder without usable anchors |
| Paging.Stride | video-frame-accessor/src/main.py:80 | the slice `s[::step]`: the first element, then the stride of what follows `step` elements on |
| Paging.Sampled | video-frame-accessor/src/main.py:80 | `frames[::SAMPLE_EVERY_X] if SAMPLE_EVERY_X > 1 else frames` |
| Paging.SlotAt | video-frame-accessor/src/main.py:108-124 | slot i of a row: the sampled frame start + i with its label, or an empty slot past the end |
| Paging.PadStarts | video-frame-accessor/src/main.py:72-74 | the offsets end with one per folder: the given one where there was one, else 0 |
| Paging.StrideLength | video-frame-accessor/src/main.py:80 | `frames[::step]` has ceil(n / step) elements |
| Paging.StrideIndex | video-frame-accessor/src/main.py:80 | element j of `frames[::step]` is frame j * step |
| Paging.StrideOne | video-frame-accessor/src/main.py:80 | a step of 1 keeps every frame, as the `else frames` branch does |
| Paging.SampledSpec | video-frame-accessor/src/main.py:80 | the sampled frames are frames 0, 16, 32, ..., as many as reach past the end, all of them frames of the folder |
| Paging.MaxStart | video-frame-accessor/src/main.py:81 | the largest start leaves exactly one full row when there are enough sampled frames, else it is 0 |
| Paging.StartOf | video-frame-accessor/src/main.py:82 | the start never exceeds the request or the largest start, and equals the request whenever that fits |
| Paging.Lookup | video-frame-accessor/src/main.py:120 | a slot has a label exactly when the label map has the frame, and it is that label |
| Paging.BuildRow | video-frame-accessor/src/main.py:108-124 | the row has exactly 7 slots, slot i shows sampled frame start + i with its label, and slots past the end are empty |
| Paging.ClampedRowSlots | video-frame-accessor/src/main.py:81-82 | with the clamped start, a folder with at least 7 sampled frames fills every slot, and a smaller one shows all its sampled frames from the first |
| Paging.SlotShowsLabel | video-frame-accessor/src/main.py:110-122 | a slot inside the sampled frames shows that frame's name, and shows a label exactly when the frame has one |
| Viewer.LabelsStore.SaveLabel | video-frame-accessor/src/main.py:162-242 | a failed listing changes nothing; otherwise the anchor file gets the clamped upsert and the label file is recomputed from it, with keys exactly the folder's images, labels in [0, 1], and the saved frame showing the saved value |
| Viewer.Loaded | video-frame-accessor/src/main.py:85 | `load_labels`: a file's contents, or `{}` when it is missing or unreadable |
| Viewer.SourceDir | video-frame-accessor/src/main.py:85-101 | the directory folder idx is read from: the requested one for the first folder, the default one for every later folder, because line 101 rebinds `labels_dir` |
| Viewer.RowOf | video-frame-accessor/src/main.py:78-134 | the row dict of one folder: seeded labels, clamped start, `max_start`, seven slots and the sampled names |
| Viewer.FolderRow | video-frame-accessor/src/main.py:77-85 | the row of folder idx, from the label file of that folder in its source directory as it was before the request |
| Viewer.IndexRows | video-frame-accessor/src/main.py:76-134 | the rows of the first k folders, in folder order |
| Viewer.WriteBack | video-frame-accessor/src/main.py:100-105 | the label files after the index loop: each row's labels written to the default directory under its folder, later rows last |
| Viewer.SavedLabelFile | video-frame-accessor/src/main.py:177-241 | the label file written by a save covers exactly the folder's images, keeps labels in [0, 1], and shows the saved value at the saved frame |
| Viewer.LabelsStore.Index | video-frame-accessor/src/main.py:67-134 | the offsets are padded to the folder count; each folder's row is built from its label file as loaded before the request; the seeded labels are written to the default directory and no anchor file changes |
| Viewer.LabelsStore.ShowAndWrite | video-frame-accessor/src/main.py:78-124 | one pass of the folder loop loads from the given directory, writes the seeded labels to the default directory, and returns the row |
| Viewer.ShowFolder | video-frame-accessor/src/main.py:78-124 | a folder's row holds its sampled frames, clamped start, seeded labels and slots |
| Viewer.IndexRowsSpec | video-frame-accessor/src/main.py:76-134 | row j of the page is folder j's row |
| Viewer.WriteBackSpec | video-frame-accessor/src/main.py:100-105 | the write-back adds one default-directory file per folder holding that folder's labels, and touches no other file |
| Viewer.LoadedAfterWriteBack | video-frame-accessor/src/main.py:85 | loading a file that no earlier pass wrote gives its contents from before the request |
| Viewer.FolderFileUntouched | video-frame-accessor/src/main.py:85-101 | the file a pass loads has not been written by an earlier pass, even after the switch to the default directory |
| Viewer.FoldersDistinct | video-frame-accessor/src/main.py:20-22 | the folder list has no duplicates |
| Viewer.RowSlotsLabelled | video-frame-accessor/src/main.py:88-124 | after seeding, every filled slot of a row shows a label |
| Viewer.RowFull | video-frame-accessor/src/main.py:81-82 | a folder with at least 7 sampled frames fills every slot wherever the request points |
| Viewer.IndexWritesRowLabels | video-frame-accessor/src/main.py:100-133 | after the page, each folder's default-directory label file holds the labels its row shows |

## Left out

- HTTP plumbing is not modelled: the Flask routes, query and JSON-body parsing (including the digit check on `frame_start`), `jsonify`, `render_template` and `send_from_directory`. Every request value is a parameter.
- Directory listing, `isdir` and all file reads and writes are replaced by parameters and by the maps of `Viewer.LabelsStore`. Left out with them:
  - the retry-and-sleep of `safe_load_json`;
  - the temporary-file move of `atomic_write_json`;
  - `os.makedirs`.
- Files are identified by (directory string, folder name), anchor files and label files in separate maps. Path collisions are not modelled:
  - the label file of a folder named `a_user_points` is the same path as folder `a`'s anchor file, so in the source an index write there overwrites `a`'s anchors;
  - two spellings of one directory (relative and absolute, with or without a trailing slash) are one directory in the source and two in the model.
- Viewer.LabelsStore.Index: its promise that no anchor file changes rests on that separation; with a folder named `<other>_user_points` the source overwrites `<other>`'s anchor file.
- A missing label or anchor file and an unreadable one both load as `{}`, so the model represents both as an absent key.
- Paths are represented by base names. Within one folder, or within the data directory, all paths share one prefix, so sorting paths orders them as sorting their names does.
- Viewer.LabelsStore.SaveLabel: a value that `float()` rejects fails the request before anything changes; the model takes the value as an already-parsed number.
- Anchors.Upsert: stores the clamped value exactly, not its two-decimal string rendering.
- Interpolation.InterpolateAll: keeps the clamped label exactly, not its two-decimal string. The same holds for seeding (`Seeding.SeedLabels`) and for re-reading anchors. Values are exact reals, with no floating-point rounding.
- Anchors.Stored: an anchor entry is either a number or a value that `float()` rejects. The numeric strings `float()` accepts are not parsed character by character.
- FrameList.IsImageName: lower-cases ASCII letters only; Python's full Unicode case mapping is not modelled.
- Label-file values are modelled as numbers. The source mixes strings (`"0.50"`) and numbers from JSON, and shows either in the slot's box.
- `extract_float_from_filename` and the `float_val` and `img_url` fields of a slot are not modelled. They are display-only and need regular-expression lookahead and `float` parsing.
- The `labels_dir` the index template receives, and the unused `folder_start` arguments, are not modelled.
- Two simultaneous saves to one folder can race, because there is no locking. Concurrency is not modelled.
- The labelling-guide image compositing, the OpenCV frame extractor and the thin file-access helpers are not part of this model.
