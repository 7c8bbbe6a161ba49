/**
 * The file viewer opened from the file list: it picks a viewer from the
 * file name's extension, asks for presigned URLs for the file (and, for a
 * PDF, for its glossary companion), and offers the glossary for download.
 */
module GlosarioVisualizer {
  import opened Text
  import opened Store

  /** The file shown: its display name and its key. */
  datatype FileRef = FileRef(name: string, filepath: string)

  /** `name.split('.').pop().toLowerCase()`: the text after the last dot, or the whole name without one. */
  function FileExtension(name: string): (ext: string)
    ensures '.' !in name ==> ext == ToLower(name)
    ensures '.' !in ext
    ensures |ext| <= |name|
  {
    SplitAtLastSeparator(name, '.');
    ToLower(LastSegment(name, '.'))
  }

  /** After a last dot, the extension is the lowercased tail. */
  lemma ExtensionAfterLastDot(stem: string, tail: string)
    requires '.' !in tail
    ensures FileExtension(stem + "." + tail) == ToLower(tail)
  {
    LastSegmentOfJoined(stem, '.', tail);
  }

  datatype Viewer = PdfWithGlossary | TextViewer | DocxViewer | Unsupported

  /** The branch rendered for an extension. */
  function ViewerFor(ext: string): Viewer {
    if ext == "pdf" then PdfWithGlossary
    else if ext == "txt" then TextViewer
    else if ext == "docx" then DocxViewer
    else Unsupported
  }

  /** `filepath.replace(/\.[^/.]+$/, "_glosarioIA.txt")`: the key of a PDF's glossary. */
  function GlossaryPath(filepath: string): string {
    ReplaceExtension(filepath, "_glosarioIA.txt")
  }

  /** `filepath.replace(/\.[^/.]+$/, ".txt")`: the name the glossary is saved under. */
  function DownloadName(filepath: string): string {
    ReplaceExtension(filepath, ".txt")
  }

  /**
   * The keys the two loading effects ask presigned URLs for, in order.
   * They agree with the rendered branch: nothing is asked for exactly when
   * the unsupported branch is shown, the file itself whenever a viewer is
   * shown, and the glossary only next to a PDF.
   */
  function PresignedRequests(file: FileRef): (keys: seq<string>)
    ensures keys == [] <==> ViewerFor(FileExtension(file.name)) == Unsupported
    ensures keys != [] ==> keys[0] == file.filepath
    ensures |keys| == 2 <==> ViewerFor(FileExtension(file.name)) == PdfWithGlossary
    ensures |keys| == 2 ==> keys[1] == GlossaryPath(file.filepath)
  {
    var ext := FileExtension(file.name);
    var main := if ext == "pdf" || ext == "txt" || ext == "docx" then [file.filepath] else [];
    var glossary := if ext == "pdf" then [GlossaryPath(file.filepath)] else [];
    main + glossary
  }

  /**
   * Both companion names change the last path segment only: the directory
   * part is kept and the segment's own final extension is replaced.
   */
  lemma CompanionsKeepDirectory(filepath: string)
    ensures Dirname(GlossaryPath(filepath), '/') == Dirname(filepath, '/')
    ensures LastSegment(GlossaryPath(filepath), '/') == ReplaceExtension(LastSegment(filepath, '/'), "_glosarioIA.txt")
    ensures Dirname(DownloadName(filepath), '/') == Dirname(filepath, '/')
    ensures LastSegment(DownloadName(filepath), '/') == ReplaceExtension(LastSegment(filepath, '/'), ".txt")
  {
    ReplaceExtensionInLastSegment(filepath, "_glosarioIA.txt");
    ReplaceExtensionInLastSegment(filepath, ".txt");
  }

  /** A key whose last segment has no dot is its own glossary path and download name. */
  lemma NoExtensionUnchanged(filepath: string)
    requires '.' !in LastSegment(filepath, '/')
    ensures GlossaryPath(filepath) == filepath && DownloadName(filepath) == filepath
  {
    NoDotNoExtension(filepath);
  }

  /** For a `.pdf` key, the glossary is the key with ".pdf" swapped for "_glosarioIA.txt", and the download name for ".txt". */
  lemma PdfCompanions(filepath: string)
    requires EndsWith(filepath, ".pdf")
    ensures GlossaryPath(filepath) == filepath[..|filepath| - 4] + "_glosarioIA.txt"
    ensures DownloadName(filepath) == filepath[..|filepath| - 4] + ".txt"
  {
    var p := |filepath| - 4;
    assert filepath[p..] == ".pdf";
    assert filepath[p] == '.';
    assert filepath[p + 1..] == "pdf";
    LastIndexOfAt(filepath, '.', p);
  }

  /** A key ending in "." followed by a dot-free, slash-free tail shows that tail, lowercased, as its extension. */
  lemma KeyExtension(key: Key, tail: string)
    requires '.' !in tail && '/' !in tail && EndsWith(key, "." + tail)
    ensures FileExtension(LastSegment(key, '/')) == ToLower(tail)
  {
    var name := LastSegment(key, '/');
    SuffixOfLastSegment(key, '/', "." + tail);
    assert name == name[..|name| - |tail| - 1] + "." + tail;
    ExtensionAfterLastDot(name[..|name| - |tail| - 1], tail);
  }

  /**
   * Every file the listing or the search shows opens in a viewer: its
   * display name is the last segment of a key ending in ".pdf", ".txt" or
   * ".docx", and each of those picks its own viewer.
   */
  lemma ListedFileHasViewer(key: Key)
    requires IsListedName(key)
    ensures var v := ViewerFor(FileExtension(LastSegment(key, '/')));
            && (EndsWith(key, ".pdf") ==> v == PdfWithGlossary)
            && (EndsWith(key, ".txt") ==> v == TextViewer)
            && (EndsWith(key, ".docx") ==> v == DocxViewer)
            && v != Unsupported
  {
    if EndsWith(key, ".pdf") {
      assert "." + "pdf" == ".pdf";
      KeyExtension(key, "pdf");
      assert ToLower("pdf") == "pdf";
    } else if EndsWith(key, ".txt") {
      assert "." + "txt" == ".txt";
      KeyExtension(key, "txt");
      assert ToLower("txt") == "txt";
    } else {
      assert "." + "docx" == ".docx";
      KeyExtension(key, "docx");
      assert ToLower("docx") == "docx";
    }
  }

  /** The viewer's own state. */
  class ViewerState {
    var glossaryText: string
    var downloading: bool

    constructor()
      ensures glossaryText == "" && !downloading
    {
      glossaryText := "";
      downloading := false;
    }

    /** A glossary (or, for a text file, the file's own text) has arrived. */
    method GlossaryLoaded(text: string)
      modifies this
      ensures glossaryText == text && downloading == old(downloading)
    {
      glossaryText := text;
    }

    /**
     * The download button: the loaded text is offered under the download
     * name and the spinner starts.
     */
    method DownloadGlossary(file: FileRef) returns (name: string, contents: string)
      modifies this
      ensures name == DownloadName(file.filepath) && contents == glossaryText
      ensures downloading && glossaryText == old(glossaryText)
    {
      downloading := true;
      name := DownloadName(file.filepath);
      contents := glossaryText;
    }

    /** The timer after a download stops the spinner. */
    method DownloadFinished()
      modifies this
      ensures !downloading && glossaryText == old(glossaryText)
    {
      downloading := false;
    }
  }
}
