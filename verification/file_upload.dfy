/** The upload box (components/FileUpload.tsx): the acceptance gate for a
    chosen or dropped file, the drag highlight, and the click that opens the
    file picker. */
module FileUpload {
  import opened Outcomes
  import opened Model
  import opened Strings

  /** The box's own state: whether a drag is over it and whether the
      rejection message is shown. */
  datatype Box = Box(dragActive: bool, error: bool)

  /** What the box asks of the outside world. */
  datatype Effect = NoEffect | OpenPicker | Process(file: File)

  datatype Gesture =
    | DragEnter
    | DragOver
    | DragLeave
    | Drop(files: seq<File>)
    | Click
    | Pick(chosen: Option<seq<File>>)

  /** The list of accepted MIME strings; the DOCX type appears twice, once
      through the enumeration and once spelled out. */
  const ValidTypes: seq<string> := [TxtMime, PdfMime, DocxMime, DocxMime]

  /** A file passes when its MIME type is accepted or its name ends in
      `.docx`, whatever its type. */
  predicate Accepts(f: File) {
    f.mime in ValidTypes || EndsWith(f.name, ".docx")
  }

  /** The gate accepts exactly the three known kinds, plus anything named
      like a Word document. */
  lemma AcceptsKnownTypes(f: File)
    ensures Accepts(f) <==> FileTypeOf(f.mime).Some? || EndsWith(f.name, ".docx")
  {
  }

  /** `handleFiles`: nothing happens for a missing or empty list; otherwise
      only the first file is judged. A rejected file shows the message and
      goes no further; an accepted one clears it and is handed on once. */
  function HandleFiles(b: Box, files: Option<seq<File>>): (r: (Box, Effect))
    ensures files.None? || files.value == [] ==> r == (b, NoEffect)
    ensures r.1.Process? <==> files.Some? && files.value != [] && Accepts(files.value[0])
    ensures r.1.Process? ==> r.1.file == files.value[0] && !r.0.error
    ensures files.Some? && files.value != [] && !Accepts(files.value[0]) ==> r.0.error && r.1 == NoEffect
    ensures r.0.dragActive == b.dragActive
  {
    if files.None? || files.value == [] then (b, NoEffect)
    else
      var f := files.value[0];
      if !Accepts(f) then (b.(error := true), NoEffect)
      else (b.(error := false), Process(f))
  }

  /** One gesture on the box while the application is or is not busy. */
  function React(b: Box, loading: bool, g: Gesture): (Box, Effect) {
    match g
    case DragEnter => (b.(dragActive := true), NoEffect)
    case DragOver => (b.(dragActive := true), NoEffect)
    case DragLeave => (b.(dragActive := false), NoEffect)
    case Drop(files) =>
      var b1 := b.(dragActive := false);
      if files != [] then HandleFiles(b1, Some(files)) else (b1, NoEffect)
    case Click => if loading then (b, NoEffect) else (b, OpenPicker)
    case Pick(chosen) => if loading then (b, NoEffect) else HandleFiles(b, chosen)
  }

  /** Entering or moving over the box lights it up; leaving or dropping
      turns it off. */
  lemma DragHighlight(b: Box, loading: bool, g: Gesture)
    ensures (g.DragEnter? || g.DragOver?) ==> React(b, loading, g).0.dragActive
    ensures (g.DragLeave? || g.Drop?) ==> !React(b, loading, g).0.dragActive
    ensures (g.Click? || g.Pick?) ==> React(b, loading, g).0.dragActive == b.dragActive
  {
  }

  /** While busy a click does not open the picker and the (disabled) picker
      delivers nothing. */
  lemma ClickGuard(b: Box, g: Gesture)
    requires g.Click? || g.Pick?
    ensures React(b, true, g) == (b, NoEffect)
    ensures g.Click? ==> React(b, false, g) == (b, OpenPicker)
  {
  }

  /** Dropping is not guarded by the busy flag: an acceptable file dropped
      while a previous one is still being processed is handed on too. */
  lemma DropWhileLoading(b: Box, f: File)
    requires Accepts(f)
    ensures React(b, true, Drop([f])).1 == Process(f)
  {
  }

  /** A file is handed on only if it passed the gate, and it is the first of
      the list. */
  lemma OnlyAcceptedFilesProcessed(b: Box, loading: bool, g: Gesture)
    ensures var e := React(b, loading, g).1;
      e.Process? ==> (Accepts(e.file)
        && ((g.Drop? && e.file == g.files[0]) || (g.Pick? && e.file == g.chosen.value[0])))
  {
  }
}
