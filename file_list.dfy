/**
 * The folder browser: it turns the listing and search responses into
 * rows, splits them into folders and paginated files, builds the
 * requests sent by drag and drop and by the create-folder dialog, and
 * keeps its rows up to date after selections and deletions.
 */
module FileList {
  import opened Wrappers
  import opened Text
  import opened Store
  import ListFilesRoute
  import SearcherFilesRoute
  import MoveFolderRoute
  import CreateFolderRoute
  import CreateFolderForm

  datatype Kind = FolderKind | FileKind

  /** A row: display name, directory, key, stamp, glossary key, checkbox and kind. */
  datatype Item = Item(name: string, path: string, filepath: string, timestamp: string,
                       filenameJson: string, selected: bool, kind: Kind)

  const ItemsPerPage: nat := 10

  // Rows from responses

  /** `key.split("/").filter(Boolean).pop()`: a folder row's display name ("" when there is none). */
  function FolderName(key: string): (name: string)
    ensures '/' !in name
  {
    LastNonEmpty(Split(key, '/')).GetOr("")
  }

  /** The row of a folder entry. */
  function FolderItem(key: string): Item {
    Item(FolderName(key), key, key, "", "", false, FolderKind)
  }

  /** The row of a file entry or search result: the key split at its last "/". */
  function FileItem(key: string, stamp: string): Item {
    Item(LastSegment(key, '/'), Dirname(key, '/'), key, stamp,
         ReplaceStemExtension(key, "_glosario.json"), false, FileKind)
  }

  function ItemFor(e: ListFilesRoute.Entry): Item {
    match e
    case Folder(key) => FolderItem(key)
    case File(key, stamp) => FileItem(key, stamp)
  }

  /** The rows of a listing response, one per entry, in order. */
  function Items(entries: seq<ListFilesRoute.Entry>): (items: seq<Item>)
    ensures |items| == |entries|
    ensures forall i :: 0 <= i < |entries| ==> items[i] == ItemFor(entries[i])
  {
    seq(|entries|, i requires 0 <= i < |entries| => ItemFor(entries[i]))
  }

  /** The rows of a search response: every result is a file row. */
  function SearchItems(found: seq<SearcherFilesRoute.Found>): (items: seq<Item>)
    ensures |items| == |found|
    ensures forall i :: 0 <= i < |found| ==> items[i] == FileItem(found[i].name, found[i].lastModified)
  {
    seq(|found|, i requires 0 <= i < |found| => FileItem(found[i].name, found[i].lastModified))
  }

  /** A listed child folder `path + c` is shown under its own name `c`. */
  lemma FolderItemName(path: string, c: string)
    requires path == "" || EndsWith(path, "/")
    requires c != "" && '/' !in c
    ensures FolderName(path + c) == c
  {
    if path == "" {
      assert path + c == c;
      SplitAtLastSeparator(c, '/');
    } else {
      assert path + c == path[..|path| - 1] + ['/'] + c;
      LastSegmentOfJoined(path[..|path| - 1], '/', c);
    }
  }

  /**
   * A file row splits its key at the last "/": the directory and the name
   * put the key back together, and the name holds no "/".
   */
  lemma FileItemSplitsKey(key: string, stamp: string)
    ensures '/' !in FileItem(key, stamp).name
    ensures '/' in key ==> FileItem(key, stamp).path + "/" + FileItem(key, stamp).name == key
    ensures '/' !in key ==> FileItem(key, stamp).path == "" && FileItem(key, stamp).name == key
  {
    SplitAtLastSeparator(key, '/');
  }

  /**
   * The glossary key of `dir + base + "." + ext`, with a dot-free base and
   * extension, is `dir + base + "_glosario.json"`; a key whose last segment
   * has no dot is its own glossary key.
   */
  lemma GlossaryJsonShape(dir: string, base: string, ext: string, stamp: string)
    requires base != "" && '/' !in base && '.' !in base
    requires ext != "" && '/' !in ext && '.' !in ext
    ensures FileItem(dir + base + "." + ext, stamp).filenameJson == dir + base + "_glosario.json"
  {
    ReplaceStemExtensionShape(dir, base, ext, "_glosario.json");
  }

  lemma GlossaryJsonWithoutExtension(key: string, stamp: string)
    requires '.' !in LastSegment(key, '/')
    ensures FileItem(key, stamp).filenameJson == key
  {
    NoDotNoExtension(key);
  }

  // Folders and files

  /** `s.filter(keep)` */
  function Filter(s: seq<Item>, keep: Item -> bool): (r: seq<Item>)
    ensures forall x :: x in r <==> x in s && keep(x)
    ensures |r| <= |s|
  {
    if s == [] then []
    else Filter(s[..|s| - 1], keep) + if keep(s[|s| - 1]) then [s[|s| - 1]] else []
  }

  /** Filtering keeps order: the rows kept from a concatenation are the rows kept from each part, in turn. */
  lemma {:induction false} FilterAppend(a: seq<Item>, b: seq<Item>, keep: Item -> bool)
    ensures Filter(a + b, keep) == Filter(a, keep) + Filter(b, keep)
    decreases |b|
  {
    if b == [] {
      assert a + b == a;
    } else {
      var b' := b[..|b| - 1];
      assert (a + b)[..|a + b| - 1] == a + b';
      assert (a + b)[|a + b| - 1] == b[|b| - 1];
      FilterAppend(a, b', keep);
    }
  }

  /** One row is kept exactly when it passes, so each row is kept at most once. */
  lemma FilterOne(x: Item, keep: Item -> bool)
    ensures Filter([x], keep) == if keep(x) then [x] else []
  {
    assert [x][..0] == [];
  }

  /** Filtering twice by the same test filters once. */
  lemma {:induction false} FilterIdempotent(s: seq<Item>, keep: Item -> bool)
    ensures Filter(Filter(s, keep), keep) == Filter(s, keep)
  {
    if s != [] {
      var r := Filter(s, keep);
      var init := Filter(s[..|s| - 1], keep);
      FilterIdempotent(s[..|s| - 1], keep);
      if keep(s[|s| - 1]) {
        assert r[..|r| - 1] == init;
      } else {
        assert r == init;
      }
    }
  }

  /** A filter keeping every element keeps the sequence. */
  lemma {:induction false} FilterAll(s: seq<Item>, keep: Item -> bool)
    requires forall i :: 0 <= i < |s| ==> keep(s[i])
    ensures Filter(s, keep) == s
  {
    if s != [] {
      var init := s[..|s| - 1];
      forall i | 0 <= i < |init| ensures keep(init[i]) {
        assert init[i] == s[i];
      }
      FilterAll(init, keep);
      assert keep(s[|s| - 1]);
      assert Filter(s, keep) == init + [s[|s| - 1]];
      assert init + [s[|s| - 1]] == s;
    }
  }

  /** A filter keeping no element gives nothing. */
  lemma {:induction false} FilterNone(s: seq<Item>, keep: Item -> bool)
    requires forall i :: 0 <= i < |s| ==> !keep(s[i])
    ensures Filter(s, keep) == []
  {
    if s != [] {
      var init := s[..|s| - 1];
      forall i | 0 <= i < |init| ensures !keep(init[i]) {
        assert init[i] == s[i];
      }
      FilterNone(init, keep);
      assert !keep(s[|s| - 1]);
    }
  }

  predicate IsFolder(x: Item) { x.kind == FolderKind }
  predicate IsFile(x: Item) { x.kind == FileKind }

  /** `files.filter(f => f.type === "folder")` */
  function Folders(s: seq<Item>): (r: seq<Item>)
    ensures forall x :: x in r <==> x in s && IsFolder(x)
  {
    Filter(s, IsFolder)
  }

  /** `files.filter(f => f.type === "file")` */
  function OnlyFiles(s: seq<Item>): (r: seq<Item>)
    ensures forall x :: x in r <==> x in s && IsFile(x)
  {
    Filter(s, IsFile)
  }

  /** Folder rows and file rows together are exactly the rows shown, each once. */
  lemma {:induction false} FoldersAndFilesPartition(s: seq<Item>)
    ensures multiset(Folders(s)) + multiset(OnlyFiles(s)) == multiset(s)
  {
    if s != [] {
      FoldersAndFilesPartition(s[..|s| - 1]);
      assert s == s[..|s| - 1] + [s[|s| - 1]];
    }
  }

  /** `files.filter(f => f.type === "folder").map(f => f.name)`: the names the dialog refuses. */
  function ExistingFolders(files: seq<Item>): (names: seq<string>)
    ensures forall n :: n in names <==> exists x :: x in files && x.kind == FolderKind && x.name == n
  {
    var fs := Folders(files);
    var names := seq(|fs|, i requires 0 <= i < |fs| => fs[i].name);
    assert forall x :: x in fs ==> x.name in names by {
      forall x | x in fs ensures x.name in names {
        var i :| 0 <= i < |fs| && fs[i] == x;
        assert names[i] == x.name;
      }
    }
    forall n | n in names ensures exists x :: x in files && x.kind == FolderKind && x.name == n {
      var i :| 0 <= i < |names| && names[i] == n;
      assert fs[i] in fs;
    }
    names
  }

  // Search

  /**
   * The rows shown: the listing's rows when the query is empty, otherwise
   * the search results whose lowercased name contains the lowercased
   * query.
   */
  function Filtered(files: seq<Item>, searcherFiles: seq<Item>, query: string): (r: seq<Item>)
    ensures query == "" ==> r == files
    ensures query != "" ==> forall x :: x in r <==> x in searcherFiles && Includes(ToLower(x.name), ToLower(query))
  {
    if query != "" then Filter(searcherFiles, MatchesQuery(query)) else files
  }

  /** The search box's test: the lowercased name contains the lowercased query. */
  function MatchesQuery(query: string): Item -> bool {
    (x: Item) => Includes(ToLower(x.name), ToLower(query))
  }

  /**
   * While searching, the rows shown keep the order of the search results:
   * the rows shown for two runs of results are those of the first run,
   * then those of the second, and a single result is shown exactly when
   * it matches.
   */
  lemma FilteredKeepsOrder(files: seq<Item>, s1: seq<Item>, s2: seq<Item>, query: string, x: Item)
    requires query != ""
    ensures Filtered(files, s1 + s2, query) == Filtered(files, s1, query) + Filtered(files, s2, query)
    ensures Filtered(files, [x], query) == if Includes(ToLower(x.name), ToLower(query)) then [x] else []
  {
    FilterAppend(s1, s2, MatchesQuery(query));
    FilterOne(x, MatchesQuery(query));
  }

  /** While searching no folder rows are shown, and every row shown is a file row paged as usual. */
  lemma SearchShowsNoFolders(files: seq<Item>, found: seq<SearcherFilesRoute.Found>, query: string)
    requires query != ""
    ensures Folders(Filtered(files, SearchItems(found), query)) == []
    ensures OnlyFiles(Filtered(files, SearchItems(found), query)) == Filtered(files, SearchItems(found), query)
  {
    var r := Filtered(files, SearchItems(found), query);
    assert forall i :: 0 <= i < |r| ==> r[i] in SearchItems(found);
    FilterNone(r, IsFolder);
    FilterAll(r, IsFile);
  }

  // Pagination

  /** `Math.ceil(n / 10)` */
  function TotalPages(n: nat): (t: nat)
    ensures t * ItemsPerPage >= n
    ensures t > 0 ==> (t - 1) * ItemsPerPage < n
  {
    (n + ItemsPerPage - 1) / ItemsPerPage
  }

  /** An index argument of `Array.prototype.slice`: a negative one counts from the end; both are clamped. */
  function SliceIndex(len: nat, i: int): (r: nat)
    ensures r <= len
    ensures 0 <= i ==> r == if i <= len then i else len
    ensures i < 0 ==> r == if len + i < 0 then 0 else len + i
  {
    if i < 0 then (if len + i < 0 then 0 else len + i)
    else if i > len then len else i
  }

  /** `s.slice(start, end)` */
  function Slice(s: seq<Item>, start: int, end: int): seq<Item> {
    var a := SliceIndex(|s|, start);
    var b := SliceIndex(|s|, end);
    if a < b then s[a..b] else []
  }

  function Min(a: int, b: int): int { if a <= b then a else b }

  /**
   * `items.slice((page - 1) * 10, page * 10)`: page 1 and later show the
   * ten items of their window (fewer at the end); page 0 shows nothing.
   */
  function Page(items: seq<Item>, page: int): (r: seq<Item>)
    ensures |r| <= ItemsPerPage
    ensures page >= 1 ==> r == items[Min((page - 1) * ItemsPerPage, |items|)..Min(page * ItemsPerPage, |items|)]
    ensures page == 0 ==> r == []
  {
    Slice(items, (page - 1) * ItemsPerPage, page * ItemsPerPage)
  }

  /** Pages 1 to k, one after the other. */
  function PagesUpTo(items: seq<Item>, k: nat): seq<Item> {
    if k == 0 then [] else PagesUpTo(items, k - 1) + Page(items, k)
  }

  lemma {:induction false} PagesUpToPrefix(items: seq<Item>, k: nat)
    ensures PagesUpTo(items, k) == items[..Min(k * ItemsPerPage, |items|)]
  {
    if k > 0 {
      PagesUpToPrefix(items, k - 1);
      var a := Min((k - 1) * ItemsPerPage, |items|);
      var b := Min(k * ItemsPerPage, |items|);
      assert items[..a] + items[a..b] == items[..b];
    }
  }

  /** Reading pages 1 to TotalPages in order shows every file row exactly once, in order. */
  lemma PagesCoverItems(items: seq<Item>)
    ensures PagesUpTo(items, TotalPages(|items|)) == items
  {
    PagesUpToPrefix(items, TotalPages(|items|));
  }

  /** Row i is on page i / 10 + 1, at position i % 10, and that page is in range. */
  lemma ItemOnItsPage(items: seq<Item>, i: nat)
    requires i < |items|
    ensures 1 <= i / ItemsPerPage + 1 <= TotalPages(|items|)
    ensures Page(items, i / ItemsPerPage + 1)[i % ItemsPerPage] == items[i]
  {
    var p := i / ItemsPerPage + 1;
    assert (p - 1) * ItemsPerPage + i % ItemsPerPage == i;
  }

  /** Pages 1 to TotalPages are non-empty, and a page beyond them is empty. */
  lemma PagesInRange(items: seq<Item>, page: int)
    ensures 1 <= page <= TotalPages(|items|) ==> Page(items, page) != []
    ensures page > TotalPages(|items|) ==> Page(items, page) == []
  {
  }

  // Requests

  /** `searchParams.get("path") || `${list_path_name}/${subject}``: the directory browsed. */
  function UrlPath(pathParam: Option<string>, listPathName: string, subject: Option<string>): (p: string)
    ensures p != ""
    ensures Given(pathParam) ==> p == pathParam.value
    ensures !Given(pathParam) ==> p == listPathName + "/" + subject.GetOr("undefined")
    ensures !Given(pathParam) ==> StartsWith(p, listPathName + "/")
  {
    if Given(pathParam) then pathParam.value
    else
      var p := listPathName + "/" + subject.GetOr("undefined");
      assert p[..|listPathName| + 1] == listPathName + "/";
      p
  }

  /** The listing is asked for `urlPath + "/"`; the search for `urlPath` as it is. */
  function ListingPath(urlPath: string): (p: string)
    ensures EndsWith(p, "/") && StartsWith(p, urlPath) && |p| == |urlPath| + 1
  {
    var p := urlPath + "/";
    assert p[..|urlPath|] == urlPath;
    p
  }

  /** The folder prefix sent to create a folder: the directory, with a "/" added when missing, then the name. */
  function FolderPrefixFor(urlPath: string, folderName: string): (prefix: string)
    ensures urlPath == "" ==> prefix == folderName
    ensures urlPath != "" && !EndsWith(urlPath, "/") ==> prefix == urlPath + "/" + folderName
    ensures urlPath != "" && EndsWith(urlPath, "/") ==> prefix == urlPath + folderName
  {
    var basePath := if urlPath != "" && !EndsWith(urlPath, "/") then urlPath + "/" else urlPath;
    basePath + folderName
  }

  /** `name.replace(/_/g, " ")`: how a folder name is displayed. */
  function FormatFolderName(name: string): (shown: string)
    ensures '_' !in shown && |shown| == |name|
  {
    ReplaceChar(name, '_', ' ')
  }

  /** A name without spaces (every name the dialog creates) is recovered from its display. */
  lemma FormatFolderNameInvertible(name: string)
    requires ' ' !in name
    ensures ReplaceChar(FormatFolderName(name), ' ', '_') == name
  {
    var back := ReplaceChar(FormatFolderName(name), ' ', '_');
    assert forall i :: 0 <= i < |name| ==> back[i] == name[i];
  }

  /** `${target}/${path.split("/").pop()}`: a dragged file or folder moved into a target folder keeps its last segment. */
  function IntoFolder(path: string, target: string): (r: string)
    ensures Dirname(r, '/') == target
    ensures LastSegment(r, '/') == LastSegment(path, '/')
  {
    SplitAtLastSeparator(path, '/');
    LastSegmentOfJoined(target, '/', LastSegment(path, '/'));
    target + "/" + LastSegment(path, '/')
  }

  /** What a drop onto a folder row asks the server for. */
  datatype DropRequest = NoRequest | MoveFile(source: string, destination: string) | MoveFolder(source: string, destination: string)

  /**
   * A drop onto folder row `target`, given what was dragged ("" when
   * nothing of that kind). A file is not moved into a folder its path
   * already lies under; a folder is not moved onto itself or into one of
   * its own sub-folders.
   */
  function Drop(draggedFile: string, draggedFolder: string, target: Item): (r: DropRequest)
    ensures r.MoveFile? <==> draggedFile != "" && !StartsWith(draggedFile, target.path + "/")
    ensures r.MoveFolder? <==> draggedFile == "" && draggedFolder != ""
                               && target.path != draggedFolder && !StartsWith(target.path, draggedFolder + "/")
    ensures r.MoveFile? ==> r.source == draggedFile && r.destination == IntoFolder(draggedFile, target.path)
    ensures r.MoveFolder? ==> r.source == draggedFolder && r.destination == IntoFolder(draggedFolder, target.path)
  {
    if draggedFile != "" then
      if StartsWith(draggedFile, target.path + "/") then NoRequest
      else MoveFile(draggedFile, IntoFolder(draggedFile, target.path))
    else if draggedFolder != "" then
      if target.path == draggedFolder || StartsWith(target.path, draggedFolder + "/") then NoRequest
      else MoveFolder(draggedFolder, IntoFolder(draggedFolder, target.path))
    else NoRequest
  }

  /** A file move the client sends never has the destination equal to the source (which would delete the file). */
  lemma FileDropNeverSelfMove(draggedFile: string, draggedFolder: string, target: Item)
    requires Drop(draggedFile, draggedFolder, target).MoveFile?
    ensures Drop(draggedFile, draggedFolder, target).destination != draggedFile
  {
    var d := IntoFolder(draggedFile, target.path);
    assert d[..|target.path| + 1] == target.path + "/";
  }

  /**
   * The file guard also ignores drops onto any folder further up: a file
   * two levels below the target is not moved, although the move would
   * give it a new key.
   */
  lemma FileDropOntoAncestorIgnored(target: Item, sub: string, name: string)
    requires sub != "" && '/' !in name
    ensures var file := target.path + "/" + sub + "/" + name;
            && Drop(file, "", target) == NoRequest
            && IntoFolder(file, target.path) != file
  {
    var file := target.path + "/" + sub + "/" + name;
    assert file[..|target.path| + 1] == target.path + "/";
    assert file == (target.path + "/" + sub) + ['/'] + name;
    LastSegmentOfJoined(target.path + "/" + sub, '/', name);
    assert |IntoFolder(file, target.path)| < |file|;
  }

  /**
   * Every folder drop the client ignores would also be refused by the
   * server's guard: the destination would start with the source.
   */
  lemma IgnoredFolderDropRefusedByServer(draggedFolder: string, target: Item)
    requires target.path == draggedFolder || StartsWith(target.path, draggedFolder + "/")
    ensures MoveFolderRoute.IntoItself(draggedFolder, IntoFolder(draggedFolder, target.path))
  {
    var d := IntoFolder(draggedFolder, target.path);
    assert StartsWith(d, target.path) by {
      assert d[..|target.path|] == target.path;
    }
    if target.path != draggedFolder {
      StartsWithTrans(target.path, draggedFolder + "/", draggedFolder);
    }
    StartsWithTrans(d, target.path, draggedFolder);
  }

  /**
   * The two guards disagree the other way: dragging "docs" onto "docs2"
   * passes the client's guard, and the server refuses it because
   * "docs2/docs" starts with "docs".
   */
  lemma ClientAndServerGuardsDisagree(target: Item)
    requires target.path == "docs2"
    ensures Drop("", "docs", target) == MoveFolder("docs", "docs2/docs")
    ensures MoveFolderRoute.IntoItself("docs", "docs2/docs")
  {
    assert !StartsWith("docs2", "docs/") by {
      assert "docs2"[4] != "docs/"[4];
    }
    assert "docs" == ['d', 'o', 'c', 's'];
    TopLevelIntoFolder("docs", "docs2");
    assert "docs2/docs"[..4] == "docs";
  }

  /** A top-level path moved into a target folder lands at `target + "/" + path`. */
  lemma TopLevelIntoFolder(path: string, target: string)
    requires '/' !in path
    ensures IntoFolder(path, target) == target + "/" + path
  {
    SplitAtLastSeparator(path, '/');
  }

  /**
   * Dropping a folder onto its own parent passes the client's guard and
   * sends the folder's own path as destination, which the server refuses.
   */
  lemma ParentDropRefusedByServer(draggedFolder: string, target: Item)
    requires '/' in draggedFolder && target.path == Dirname(draggedFolder, '/')
    ensures Drop("", draggedFolder, target) == MoveFolder(draggedFolder, draggedFolder)
    ensures MoveFolderRoute.IntoItself(draggedFolder, draggedFolder)
  {
    SplitAtLastSeparator(draggedFolder, '/');
    var parent := target.path;
    assert |parent| < |draggedFolder|;
    assert !StartsWith(parent, draggedFolder + "/");
    assert draggedFolder[..|draggedFolder|] == draggedFolder;
  }

  /**
   * After a folder is created from directory `urlPath` and the directory
   * is listed again, the new folder's row carries the accepted name, so
   * the dialog refuses the same name (however it was typed) as a
   * duplicate.
   */
  lemma CreatedFolderIsThenDuplicate(objects: map<Key, StoredObject>, urlPath: string, typed: string,
                                     existing: seq<string>, now: string, stream: seq<ObjectInfo>)
    requires urlPath != "" && !EndsWith(urlPath, "/")
    requires CreateFolderForm.Validate(typed, existing).Accepted?
    requires '/' !in CreateFolderForm.Validate(typed, existing).name
    requires IsListing(objects[CreateFolderRoute.MarkerKey(FolderPrefixFor(urlPath, CreateFolderForm.Validate(typed, existing).name))
                                 := CreateFolderRoute.MarkerObject(now)],
                       ListingPath(urlPath), stream)
    ensures var shown := ExistingFolders(Items(ListFilesRoute.Entries(ListingPath(urlPath), stream)));
            && CreateFolderForm.Validate(typed, existing).name in shown
            && CreateFolderForm.Validate(typed, shown) == CreateFolderForm.Rejected(CreateFolderForm.DuplicateError)
  {
    var name := CreateFolderForm.Validate(typed, existing).name;
    var path := ListingPath(urlPath);
    assert FolderPrefixFor(urlPath, name) == path + name;
    CreateFolderRoute.CreatedFolderIsListed(objects, path, name, now, stream);
    var entries := ListFilesRoute.Entries(path, stream);
    var i :| 0 <= i < |entries| && entries[i] == ListFilesRoute.Folder(path + name);
    var items := Items(entries);
    FolderItemName(path, name);
    assert items[i] == FolderItem(path + name);
    assert items[i] in items && items[i].kind == FolderKind && items[i].name == name;
    CreateFolderForm.AcceptedNameIsThenDuplicate(typed, existing, ExistingFolders(items));
  }

  /** Toggling the same name twice restores the rows. */
  lemma ToggleTwiceRestores(files: seq<Item>, fileName: string)
    ensures Toggled(Toggled(files, fileName), fileName) == files
  {
  }

  /** The rows after a toggle, as a function of the rows before. */
  function Toggled(files: seq<Item>, fileName: string): (r: seq<Item>)
    ensures |r| == |files|
    ensures forall i :: 0 <= i < |files| ==> r[i].(selected := files[i].selected) == files[i]
    ensures forall i :: 0 <= i < |files| ==> (r[i].selected != files[i].selected <==> files[i].name == fileName)
  {
    seq(|files|, i requires 0 <= i < |files| =>
      if files[i].name == fileName then files[i].(selected := !files[i].selected) else files[i])
  }

  /** The browser's state. */
  class FileListView {
    var files: seq<Item>
    var searcherFiles: seq<Item>
    var searchQuery: string
    var currentPage: int

    constructor()
      ensures files == [] && searcherFiles == [] && searchQuery == "" && currentPage == 1
    {
      files := [];
      searcherFiles := [];
      searchQuery := "";
      currentPage := 1;
    }

    /** The rows shown before pagination. */
    function Shown(): seq<Item>
      reads this
    {
      Filtered(files, searcherFiles, searchQuery)
    }

    function TotalPagesNow(): nat
      reads this
    {
      TotalPages(|OnlyFiles(Shown())|)
    }

    /** The file rows of the current page (folder rows are all shown above them). */
    function PaginatedFiles(): (r: seq<Item>)
      reads this
      ensures |r| <= ItemsPerPage
      ensures forall x :: x in r ==> x in OnlyFiles(Shown())
    {
      Page(OnlyFiles(Shown()), currentPage)
    }

    /**
     * Both responses have arrived. Each half of the rows is replaced only when
     * its reply is an array; a route's 500 body is an object, so that half keeps
     * the rows of the previously browsed directory.
     */
    method Loaded(listed: ListFilesRoute.Response, searched: SearcherFilesRoute.Response)
      modifies this
      ensures files == if listed.Listing? then Items(listed.entries) else old(files)
      ensures searcherFiles == if searched.Results? then SearchItems(searched.found) else old(searcherFiles)
      ensures searchQuery == old(searchQuery) && currentPage == old(currentPage)
    {
      if listed.Listing? {
        files := Items(listed.entries);
      }
      if searched.Results? {
        searcherFiles := SearchItems(searched.found);
      }
    }

    /** Flipping the checkbox of every listing row with the given name. */
    method ToggleSelection(fileName: string)
      modifies this
      ensures files == Toggled(old(files), fileName)
      ensures searcherFiles == old(searcherFiles) && searchQuery == old(searchQuery) && currentPage == old(currentPage)
    {
      files := Toggled(files, fileName);
    }

    /** A file was deleted: every listing row with that key goes. */
    method RemoveDeletedFile(fileName: string)
      modifies this
      ensures forall x :: x in files <==> x in old(files) && x.filepath != fileName
      ensures files == Filter(old(files), (x: Item) => x.filepath != fileName)
      ensures searcherFiles == old(searcherFiles) && searchQuery == old(searchQuery) && currentPage == old(currentPage)
    {
      files := Filter(files, (x: Item) => x.filepath != fileName);
    }

    /** A folder was deleted: every listing row with that path goes. */
    method RemoveDeletedFolder(path: string)
      modifies this
      ensures forall x :: x in files <==> x in old(files) && x.path != path
      ensures files == Filter(old(files), (x: Item) => x.path != path)
      ensures searcherFiles == old(searcherFiles) && searchQuery == old(searchQuery) && currentPage == old(currentPage)
    {
      files := Filter(files, (x: Item) => x.path != path);
    }

    /** `Math.max(page - 1, 1)` */
    method GoToPreviousPage()
      modifies this
      ensures currentPage >= 1
      ensures currentPage == if old(currentPage) > 1 then old(currentPage) - 1 else 1
      ensures files == old(files) && searcherFiles == old(searcherFiles) && searchQuery == old(searchQuery)
    {
      currentPage := if currentPage - 1 > 1 then currentPage - 1 else 1;
    }

    /** `Math.min(page + 1, totalPages)`: with no file rows at all it goes to page 0. */
    method GoToNextPage()
      modifies this
      ensures currentPage <= TotalPagesNow()
      ensures currentPage == if old(currentPage) + 1 < TotalPagesNow() then old(currentPage) + 1 else TotalPagesNow()
      ensures old(currentPage) >= 1 && TotalPagesNow() >= 1 ==> currentPage >= 1
      ensures files == old(files) && searcherFiles == old(searcherFiles) && searchQuery == old(searchQuery)
    {
      var totalPages := TotalPagesNow();
      currentPage := if currentPage + 1 < totalPages then currentPage + 1 else totalPages;
    }

    /** Typing in the search box goes back to the first page. */
    method SetSearchQuery(query: string)
      modifies this
      ensures searchQuery == query && currentPage == 1
      ensures files == old(files) && searcherFiles == old(searcherFiles)
    {
      searchQuery := query;
      currentPage := 1;
    }
  }

}
