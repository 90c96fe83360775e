/** The upload page's two file slots, MDF and artwork, and the handlers that act
    on them synchronously: choosing or dropping a file, removing it, and
    submitting. The timed progress of an upload is in module UploadFlow. */
module UploadSlots {
  import opened Options

  datatype Slot = Mdf | Artwork

  function Other(t: Slot): Slot {
    if t == Mdf then Artwork else Mdf
  }

  /** A browser file as far as the page looks at it; its size is only displayed. */
  datatype File = File(name: string, mimeType: string)

  const PdfMimeType: string := "application/pdf"

  predicate IsPdf(f: File) {
    f.mimeType == PdfMimeType
  }

  /** A slot's content: the file, its upload percentage and whether it finished. */
  datatype UploadedFile = UploadedFile(file: File, progress: int, uploaded: bool)

  /** The state of the upload page. `isUploading` is one flag for both slots. */
  datatype Page = Page(mdf: Option<UploadedFile>, artwork: Option<UploadedFile>, isUploading: bool)

  const EmptyPage := Page(None, None, false)

  function Get(p: Page, t: Slot): Option<UploadedFile> {
    if t == Mdf then p.mdf else p.artwork
  }

  /** Writes slot `t`; the other slot and the flag stay as they were. */
  function Put(p: Page, t: Slot, v: Option<UploadedFile>): (r: Page)
    ensures Get(r, t) == v
    ensures Get(r, Other(t)) == Get(p, Other(t))
    ensures r.isUploading == p.isUploading
  {
    if t == Mdf then p.(mdf := v) else p.(artwork := v)
  }

  /** The record a new selection starts from. */
  function Fresh(f: File): UploadedFile {
    UploadedFile(f, 0, false)
  }

  predicate NoPdfBefore(files: seq<File>, i: nat)
    requires i <= |files|
  {
    forall j :: 0 <= j < i ==> !IsPdf(files[j])
  }

  /** Position of the first PDF among dropped files, if there is one. */
  function FirstPdf(files: seq<File>): (r: Option<nat>)
    ensures r.Some? ==> r.value < |files| && IsPdf(files[r.value])
    ensures r.Some? ==> forall j :: 0 <= j < r.value ==> !IsPdf(files[j])
    ensures r.None? <==> forall j :: 0 <= j < |files| ==> !IsPdf(files[j])
    ensures forall i :: 0 <= i < |files| && IsPdf(files[i]) && NoPdfBefore(files, i) ==> r == Some(i)
  {
    if |files| == 0 then None
    else if IsPdf(files[0]) then Some(0)
    else match FirstPdf(files[1..])
         case None => None
         case Some(k) => Some(k + 1)
  }

  /** Removing a file empties its slot and nothing else. */
  function RemoveFile(p: Page, t: Slot): (r: Page)
    ensures Get(r, t) == None
    ensures Get(r, Other(t)) == Get(p, Other(t))
    ensures r.isUploading == p.isUploading
  {
    Put(p, t, None)
  }

  predicate Uploaded(v: Option<UploadedFile>) {
    v.Some? && v.value.uploaded
  }

  /** Both slots hold a finished upload. */
  predicate CanProceed(p: Page) {
    Uploaded(p.mdf) && Uploaded(p.artwork)
  }

  /** The "Proceed to Validation" button is clickable. */
  predicate ProceedEnabled(p: Page) {
    CanProceed(p) && !p.isUploading
  }

  /** Whether pressing the button leads on to validation (after a delay); in the
      other case the page only shows an "Upload Required" notice. */
  function HandleSubmit(p: Page): (proceeds: bool)
    ensures proceeds <==> p.mdf.Some? && p.mdf.value.uploaded
                          && p.artwork.Some? && p.artwork.value.uploaded
  {
    CanProceed(p)
  }

  /** A clickable button always leads on; the flag can only hold it back. */
  lemma ProceedEnabledSubmits(p: Page)
    ensures ProceedEnabled(p) ==> HandleSubmit(p)
    ensures HandleSubmit(p) && !p.isUploading ==> ProceedEnabled(p)
  {
  }
}
