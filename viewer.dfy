/**
 * The two routes that touch the labels directory, over an in-memory model of that directory:
 * the index page, which seeds and writes back every folder's label file and builds the rows of
 * thumbnails, and `save_label`, which upserts one anchor and rewrites the folder's label file.
 */
module Viewer {
  import opened Basics
  import opened FrameList
  import opened Anchors
  import opened SaveLabel
  import opened Seeding
  import opened Paging

  /** A file of a labels directory: the directory and the video folder the file is for. */
  datatype FileKey = FileKey(dir: string, folder: string)

  /** `LABEL_FOLDER_PATH`, the labels directory used when a request names none. */
  const DEFAULT_LABELS_DIR: string := "video-frame-accessor/labels/"

  /** One row of the index page. */
  datatype Row = Row(
    folder: string,
    slots: seq<Option<Slot>>,
    maxStart: nat,
    start: nat,
    labels: map<string, real>,
    sampledNames: seq<string>)

  datatype SaveResult = Saved | FolderMissing

  /** What loading a file gives: its contents, or `{}` when it is missing or unreadable. */
  function Loaded<V>(files: map<FileKey, map<string, V>>, key: FileKey): map<string, V> {
    if key in files then files[key] else map[]
  }

  /**
   * The directory the index page reads folder `idx`'s label file from: the requested one for
   * the first folder, the default one afterwards, because the loop switches `labels_dir` to the
   * default before writing the first file back.
   */
  function SourceDir(labelsDir: string, idx: nat): string {
    if idx == 0 then labelsDir else DEFAULT_LABELS_DIR
  }

  /** The row shown for a folder whose frames are `frames`, whose label file held `stored`. */
  function RowOf(folder: string, frames: seq<string>, stored: map<string, real>, requested: nat): Row {
    var sampled := Sampled(frames);
    var labels := Seed(frames, stored);
    var start := StartOf(requested, |sampled|);
    Row(folder, seq(FRAMES_PER_ROW, i requires 0 <= i => SlotAt(sampled, start, labels, i)),
      MaxStart(|sampled|), start, labels, sampled)
  }

  /** The row the index page builds for folder `idx`, from the label files as they were before the request. */
  function FolderRow(files: map<FileKey, map<string, real>>, labelsDir: string, folders: seq<string>,
                     idx: nat, listing: string -> seq<string>, requested: nat): Row
    requires idx < |folders|
  {
    var folder := folders[idx];
    RowOf(folder, ResolveFrames(listing(folder)), Loaded(files, FileKey(SourceDir(labelsDir, idx), folder)), requested)
  }

  /** The rows of the first k folders, as the index loop builds them. */
  function IndexRows(files: map<FileKey, map<string, real>>, labelsDir: string, folders: seq<string>,
                     listing: string -> seq<string>, starts: seq<nat>, k: nat): seq<Row>
    requires k <= |folders| && |starts| == |folders|
  {
    if k == 0 then []
    else IndexRows(files, labelsDir, folders, listing, starts, k - 1) + [FolderRow(files, labelsDir, folders, k - 1, listing, starts[k - 1])]
  }

  /** Row j is folder j's row. */
  lemma {:induction false} IndexRowsSpec(files: map<FileKey, map<string, real>>, labelsDir: string, folders: seq<string>,
                                         listing: string -> seq<string>, starts: seq<nat>, k: nat)
    requires k <= |folders| && |starts| == |folders|
    ensures |IndexRows(files, labelsDir, folders, listing, starts, k)| == k
    ensures forall j :: 0 <= j < k ==>
      IndexRows(files, labelsDir, folders, listing, starts, k)[j] == FolderRow(files, labelsDir, folders, j, listing, starts[j])
  {
    if k > 0 {
      IndexRowsSpec(files, labelsDir, folders, listing, starts, k - 1);
    }
  }

  /** The label files after the rows' label maps have been written to the default directory, in order. */
  function WriteBack(files: map<FileKey, map<string, real>>, rows: seq<Row>): map<FileKey, map<string, real>> {
    if rows == [] then files
    else
      var last := rows[|rows| - 1];
      WriteBack(files, rows[..|rows| - 1])[FileKey(DEFAULT_LABELS_DIR, last.folder) := last.labels]
  }

  /** Writing back adds one default-directory file per row, holding that row's labels, and touches nothing else. */
  lemma {:induction false} WriteBackSpec(files: map<FileKey, map<string, real>>, rows: seq<Row>)
    ensures forall key :: key in WriteBack(files, rows) <==>
      key in files || exists j :: 0 <= j < |rows| && key == FileKey(DEFAULT_LABELS_DIR, rows[j].folder)
    ensures forall key :: key in files && (forall j :: 0 <= j < |rows| ==> key != FileKey(DEFAULT_LABELS_DIR, rows[j].folder)) ==>
      WriteBack(files, rows)[key] == files[key]
    ensures forall j :: 0 <= j < |rows| && (forall m :: j < m < |rows| ==> rows[m].folder != rows[j].folder) ==>
      WriteBack(files, rows)[FileKey(DEFAULT_LABELS_DIR, rows[j].folder)] == rows[j].labels
  {
    if rows != [] {
      var init := rows[..|rows| - 1];
      WriteBackSpec(files, init);
      forall key ensures key in WriteBack(files, rows) <==>
        key in files || exists j :: 0 <= j < |rows| && key == FileKey(DEFAULT_LABELS_DIR, rows[j].folder)
      {
        if exists j :: 0 <= j < |rows| && key == FileKey(DEFAULT_LABELS_DIR, rows[j].folder) {
          var j :| 0 <= j < |rows| && key == FileKey(DEFAULT_LABELS_DIR, rows[j].folder);
          if j < |rows| - 1 {
            assert init[j] == rows[j];
          }
        }
      }
      forall j | 0 <= j < |rows| - 1 ensures rows[j] == init[j] { }
    }
  }

  /** Loading a file the write-back did not touch gives what loading it before gave. */
  lemma LoadedAfterWriteBack(files: map<FileKey, map<string, real>>, rows: seq<Row>, key: FileKey)
    requires forall j :: 0 <= j < |rows| ==> key != FileKey(DEFAULT_LABELS_DIR, rows[j].folder)
    ensures Loaded(WriteBack(files, rows), key) == Loaded(files, key)
  {
    WriteBackSpec(files, rows);
  }

  /** While the index loop is at folder idx, the file it loads for that folder has not been written yet. */
  lemma FolderFileUntouched(files: map<FileKey, map<string, real>>, rows: seq<Row>, folders: seq<string>, labelsDir: string, idx: nat)
    requires Distinct(folders) && |rows| == idx < |folders|
    requires forall j :: 0 <= j < idx ==> rows[j].folder == folders[j]
    ensures var key := FileKey(SourceDir(labelsDir, idx), folders[idx]);
      Loaded(WriteBack(files, rows), key) == Loaded(files, key)
  {
    var key := FileKey(SourceDir(labelsDir, idx), folders[idx]);
    forall j | 0 <= j < idx ensures key != FileKey(DEFAULT_LABELS_DIR, rows[j].folder) {
      assert folders[j] != folders[idx];
    }
    LoadedAfterWriteBack(files, rows, key);
  }

  /** Every frame of a row's folder has a label, so every filled slot shows one. */
  lemma RowSlotsLabelled(folder: string, frames: seq<string>, stored: map<string, real>, requested: nat, i: nat)
    requires i < FRAMES_PER_ROW
    requires RowOf(folder, frames, stored, requested).slots[i].Some?
    ensures RowOf(folder, frames, stored, requested).slots[i].value.boxVal.Some?
  {
    var row := RowOf(folder, frames, stored, requested);
    var sampled := Sampled(frames);
    SampledSpec(frames);
    SeedSpec(frames, stored);
    assert sampled[row.start + i] in frames;
  }

  /** A folder with at least FRAMES_PER_ROW sampled frames fills every slot of its row, wherever the request points. */
  lemma RowFull(folder: string, frames: seq<string>, stored: map<string, real>, requested: nat, i: nat)
    requires i < FRAMES_PER_ROW && |Sampled(frames)| >= FRAMES_PER_ROW
    ensures RowOf(folder, frames, stored, requested).slots[i].Some?
  {
    ClampedRowSlots(Sampled(frames), requested, Seed(frames, stored), i);
  }

  /** The label file a save writes: one label per image of the folder, each in [0, 1], the saved frame showing the saved value. */
  lemma SavedLabelFile(entries: seq<string>, stored: map<string, Stored>, frame: string, value: real)
    ensures var labels := Labels(ResolveFrames(entries), Upsert(stored, frame, value));
      && (forall f :: f in labels <==> f in entries && IsImageName(f))
      && (forall f :: f in labels ==> 0.0 <= labels[f] <= 1.0)
      && (Distinct(entries) && frame in labels ==> labels[frame] == Clamp(value))
  {
    var frames := ResolveFrames(entries);
    var points := Upsert(stored, frame, value);
    ResolveFramesSpec(entries);
    LabelsCoverFrames(frames, points);
    if Distinct(entries) && frame in Labels(frames, points) {
      SavedValueShown(frames, stored, frame, value);
    }
  }

  /** A directory listing has no repeated name, so neither has the folder list. */
  lemma FoldersDistinct(entries: seq<string>, isDir: string -> bool)
    requires Distinct(entries)
    ensures Distinct(VideoFolders(entries, isDir))
  {
    VideoFoldersSpec(entries, isDir);
  }

  /** The body of the index loop for one folder: seed its labels and lay out its row. */
  method ShowFolder(folder: string, frames: seq<string>, stored: map<string, real>, requested: nat) returns (row: Row)
    ensures row == RowOf(folder, frames, stored, requested)
  {
    var sampled := Sampled(frames);
    var maxStart := MaxStart(|sampled|);
    var start := StartOf(requested, |sampled|);
    var labels := SeedLabels(frames, stored);
    var slots := BuildRow(sampled, start, labels);
    row := Row(folder, slots, maxStart, start, labels, sampled);
  }

  /** The labels directory: anchor files and label files, keyed by directory and folder. */
  class LabelsStore {
    /** `<folder>_user_points.json`: the anchors the user set. */
    var anchorFiles: map<FileKey, map<string, Stored>>
    /** `<folder>.json`: one label per frame. */
    var labelFiles: map<FileKey, map<string, real>>

    constructor (anchors: map<FileKey, map<string, Stored>>, labels: map<FileKey, map<string, real>>)
      ensures anchorFiles == anchors && labelFiles == labels
    {
      anchorFiles := anchors;
      labelFiles := labels;
    }

    /**
     * `save_label`: clamp the value, upsert it into the folder's anchor file, and rewrite the
     * folder's label file from the anchors. `listing` is the folder's directory listing under
     * the default data directory, or None when it cannot be listed, which fails the request
     * before anything is written.
     */
    method SaveLabel(labelsDir: string, folder: string, frame: string, value: real, listing: Option<seq<string>>)
      returns (result: SaveResult)
      modifies this
      ensures listing.None? ==> result == FolderMissing && anchorFiles == old(anchorFiles) && labelFiles == old(labelFiles)
      ensures listing.Some? ==> result == Saved
      ensures listing.Some? ==>
        var key := FileKey(labelsDir, folder);
        var points := Upsert(Loaded(old(anchorFiles), key), frame, value);
        && anchorFiles == old(anchorFiles)[key := points]
        && labelFiles == old(labelFiles)[key := Labels(ResolveFrames(listing.value), points)]
      ensures listing.Some? ==>
        var labels := labelFiles[FileKey(labelsDir, folder)];
        && (forall f :: f in labels <==> f in listing.value && IsImageName(f))
        && (forall f :: f in labels ==> 0.0 <= labels[f] <= 1.0)
        && (Distinct(listing.value) && frame in labels ==> labels[frame] == Clamp(value))
    {
      if listing.None? {
        return FolderMissing;
      }
      var clamped := Clamp(value);
      var key := FileKey(labelsDir, folder);
      var frames := ResolveFrames(listing.value);
      var points := if key in anchorFiles then anchorFiles[key] else map[];
      points := points[frame := Num(clamped)];
      anchorFiles := anchorFiles[key := points];
      var labels := Recompute(frames, points);
      labelFiles := labelFiles[key := labels];
      result := Saved;
      SavedLabelFile(listing.value, Loaded(old(anchorFiles), key), frame, value);
    }

    /**
     * One pass of the index loop: load the folder's label file from `dir`, seed it, write it
     * back to the default labels directory, and lay out the folder's row.
     */
    method ShowAndWrite(dir: string, folder: string, frames: seq<string>, requested: nat) returns (row: Row)
      modifies this
      ensures row == RowOf(folder, frames, Loaded(old(labelFiles), FileKey(dir, folder)), requested)
      ensures labelFiles == old(labelFiles)[FileKey(DEFAULT_LABELS_DIR, folder) := row.labels]
      ensures anchorFiles == old(anchorFiles)
    {
      var key := FileKey(dir, folder);
      var stored := if key in labelFiles then labelFiles[key] else map[];
      row := ShowFolder(folder, frames, stored, requested);
      labelFiles := labelFiles[FileKey(DEFAULT_LABELS_DIR, folder) := row.labels];
    }

    /**
     * The index page: pad the start offsets, then for every video folder seed its label file,
     * write it back to the default labels directory and build its row.
     */
    method Index(labelsDir: string, entries: seq<string>, isDir: string -> bool,
                 listing: string -> seq<string>, frameStarts: seq<nat>)
      returns (rows: seq<Row>, starts: seq<nat>)
      requires Distinct(entries)
      modifies this
      ensures |starts| == |VideoFolders(entries, isDir)|
      ensures forall i :: 0 <= i < |starts| ==> starts[i] == if i < |frameStarts| then frameStarts[i] else 0
      ensures |rows| == |VideoFolders(entries, isDir)|
      ensures rows == IndexRows(old(labelFiles), labelsDir, VideoFolders(entries, isDir), listing, starts, |starts|)
      ensures labelFiles == WriteBack(old(labelFiles), rows)
      ensures anchorFiles == old(anchorFiles)
    {
      ghost var before := labelFiles;
      var folders := VideoFolders(entries, isDir);
      FoldersDistinct(entries, isDir);
      starts := PadStarts(frameStarts, |folders|);
      var dir := labelsDir;
      rows := [];
      for idx := 0 to |folders|
        invariant dir == SourceDir(labelsDir, idx)
        invariant rows == IndexRows(before, labelsDir, folders, listing, starts, idx)
        invariant labelFiles == WriteBack(before, rows)
        invariant anchorFiles == old(anchorFiles)
      {
        var folder := folders[idx];
        IndexRowsSpec(before, labelsDir, folders, listing, starts, idx);
        FolderFileUntouched(before, rows, folders, labelsDir, idx);
        var row := ShowAndWrite(dir, folder, ResolveFrames(listing(folder)), starts[idx]);
        dir := DEFAULT_LABELS_DIR;
        assert (rows + [row])[..idx] == rows;
        rows := rows + [row];
      }
      IndexRowsSpec(before, labelsDir, folders, listing, starts, |folders|);
    }
  }

  /** After the index page, each folder's label file in the default directory holds the labels its row shows. */
  lemma IndexWritesRowLabels(files: map<FileKey, map<string, real>>, rows: seq<Row>, folders: seq<string>, idx: nat)
    requires Distinct(folders) && |rows| == |folders| && idx < |rows|
    requires forall j :: 0 <= j < |rows| ==> rows[j].folder == folders[j]
    ensures FileKey(DEFAULT_LABELS_DIR, folders[idx]) in WriteBack(files, rows)
    ensures WriteBack(files, rows)[FileKey(DEFAULT_LABELS_DIR, folders[idx])] == rows[idx].labels
  {
    WriteBackSpec(files, rows);
  }
}
