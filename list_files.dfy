/**
 * GET /api/listFiles: one level of the virtual folder tree. The keys under
 * the queried path are split into the immediate child folders (the first
 * segment of every deeper key, each once) and the files directly at this
 * level that have a listed extension.
 */
module ListFilesRoute {
  import opened Text
  import opened Store

  /** An element of the response: a child folder, or a file with its stamp. */
  datatype Entry = Folder(name: string) | File(name: string, lastModified: string)

  datatype Response = Listing(entries: seq<Entry>) | ServerError {
    function Status(): nat {
      if Listing? then 200 else 500
    }
  }

  /** The key lies below `path` and its remainder has a further "/": it is inside a child folder. */
  predicate InChildFolder(path: string, name: string) {
    StartsWith(name, path) && '/' in name[|path|..]
  }

  /** The key lies below `path` with no further "/": it sits directly at this level. */
  predicate AtThisLevel(path: string, name: string) {
    StartsWith(name, path) && '/' !in name[|path|..]
  }

  /** The child folder a deeper key belongs to: its remainder up to the first "/". */
  function ChildFolder(path: string, name: string): string
    requires InChildFolder(path, name)
  {
    var rest := name[|path|..];
    rest[..IndexOf(rest, '/')]
  }

  /** It is the first piece of the remainder, `rest.split("/")[0]`. */
  lemma ChildFolderIsFirstPiece(path: string, name: string)
    requires InChildFolder(path, name)
    ensures ChildFolder(path, name) == Split(name[|path|..], '/')[0]
  {
  }

  /** The child folder is the text up to the first "/" of the remainder. */
  lemma ChildFolderIsFirstSegment(path: string, name: string)
    requires InChildFolder(path, name)
    ensures '/' !in ChildFolder(path, name)
    ensures StartsWith(name, path + ChildFolder(path, name) + "/")
  {
    var rest := name[|path|..];
    var i := IndexOf(rest, '/');
    assert ChildFolder(path, name) == rest[..i];
    assert name == path + rest;
    assert (path + rest[..i] + "/") == name[..|path| + i + 1];
  }

  /** A key `path + c + "/" + more` with a "/"-free `c` belongs to child folder `c`. */
  lemma ChildFolderOf(path: string, c: string, more: string)
    requires '/' !in c
    ensures InChildFolder(path, path + c + "/" + more)
    ensures ChildFolder(path, path + c + "/" + more) == c
  {
    var name := path + c + "/" + more;
    assert name[|path|..] == c + ['/'] + more;
    IndexOfAfter(c, '/', more);
  }

  /** The folder names `stream` gives, in order of first appearance (a JavaScript `Set`). */
  function FolderNames(path: string, stream: seq<ObjectInfo>): seq<string>
  {
    if stream == [] then []
    else
      var names := FolderNames(path, stream[..|stream| - 1]);
      var name := stream[|stream| - 1].name;
      if InChildFolder(path, name) && ChildFolder(path, name) !in names
      then names + [ChildFolder(path, name)]
      else names
  }

  /** The file entries `stream` gives, in stream order. */
  function FileEntries(path: string, stream: seq<ObjectInfo>): seq<Entry>
  {
    if stream == [] then []
    else
      var obj := stream[|stream| - 1];
      FileEntries(path, stream[..|stream| - 1])
      + if AtThisLevel(path, obj.name) && IsListedName(obj.name) then [File(obj.name, Stamp(obj.lastModified))] else []
  }

  /** Folder names rendered as response entries, `path + name`. */
  function FolderEntries(path: string, names: seq<string>): (entries: seq<Entry>)
    ensures |entries| == |names|
    ensures forall i :: 0 <= i < |names| ==> entries[i] == Folder(path + names[i])
  {
    if names == [] then [] else FolderEntries(path, names[..|names| - 1]) + [Folder(path + names[|names| - 1])]
  }

  /** The response for the normalised `path`: all folders, then all files. */
  function Entries(path: string, stream: seq<ObjectInfo>): seq<Entry> {
    FolderEntries(path, FolderNames(path, stream)) + FileEntries(path, stream)
  }

  /**
   * The handler. The path is normalised, the store lists every key under
   * it, and one pass over the stream collects folders and files. A failed
   * listing gives a 500 and no entries at all.
   */
  method Get(bucket: Bucket, pathParam: string, refused: set<nat>)
    returns (response: Response, ghost stream: seq<ObjectInfo>)
    ensures response.ServerError? <==> 0 in refused
    ensures response.Listing? ==> IsListing(bucket.objects, DirPrefix(pathParam), stream)
    ensures response.Listing? ==> response.entries == Entries(DirPrefix(pathParam), stream)
  {
    var path := pathParam;
    if path != "" && !EndsWith(path, "/") {
      path := path + "/";
    }
    var ok, listing := bucket.ListObjects(path, 0 in refused);
    if !ok {
      return ServerError, [];
    }
    var foldersSet: seq<string> := [];
    var files: seq<Entry> := [];
    for i := 0 to |listing|
      invariant foldersSet == FolderNames(path, listing[..i])
      invariant files == FileEntries(path, listing[..i])
    {
      assert listing[..i + 1][..i] == listing[..i];
      var obj := listing[i];
      assert listing[..i + 1][i] == obj;
      ghost var names := FolderNames(path, listing[..i + 1]);
      assert names == if InChildFolder(path, obj.name) && ChildFolder(path, obj.name) !in foldersSet
                      then foldersSet + [ChildFolder(path, obj.name)] else foldersSet;
      assert FileEntries(path, listing[..i + 1]) == files
        + if AtThisLevel(path, obj.name) && IsListedName(obj.name) then [File(obj.name, Stamp(obj.lastModified))] else [];
      if !StartsWith(obj.name, path) {
        continue;
      }
      var rest := obj.name[|path|..];
      if '/' in rest {
        var folderName := Split(rest, '/')[0];
        ChildFolderIsFirstPiece(path, obj.name);
        if folderName !in foldersSet {
          foldersSet := foldersSet + [folderName];
        }
      } else if IsListedName(obj.name) {
        files := files + [File(obj.name, if obj.lastModified == "" then Unknown else obj.lastModified)];
      }
    }
    assert listing[..|listing|] == listing;
    response := Listing(FolderEntries(path, foldersSet) + files);
    stream := listing;
  }

  /** The stream element `obj` lies inside child folder `f`. */
  predicate InFolder(path: string, obj: ObjectInfo, f: string) {
    InChildFolder(path, obj.name) && ChildFolder(path, obj.name) == f
  }

  /** The stream element `obj` is listed as the file entry `e`. */
  predicate ListedAs(path: string, obj: ObjectInfo, e: Entry) {
    AtThisLevel(path, obj.name) && IsListedName(obj.name) && e == File(obj.name, Stamp(obj.lastModified))
  }

  /** No folder name is collected twice. */
  lemma {:induction false} FolderNamesDistinct(path: string, stream: seq<ObjectInfo>)
    ensures forall i, j :: 0 <= i < j < |FolderNames(path, stream)| ==> FolderNames(path, stream)[i] != FolderNames(path, stream)[j]
  {
    if stream != [] {
      var init := stream[..|stream| - 1];
      FolderNamesDistinct(path, init);
      var names := FolderNames(path, init);
      var name := stream[|stream| - 1].name;
      if InChildFolder(path, name) && ChildFolder(path, name) !in names {
        var all := names + [ChildFolder(path, name)];
        assert FolderNames(path, stream) == all;
        forall i, j | 0 <= i < j < |all| ensures all[i] != all[j] {
          if j == |names| {
            assert all[i] == names[i];
          }
        }
      }
    }
  }

  /** One more stream element adds at most its own child folder to the collected names. */
  lemma FolderNamesStep(path: string, stream: seq<ObjectInfo>, f: string)
    requires stream != []
    ensures f in FolderNames(path, stream) <==>
              f in FolderNames(path, stream[..|stream| - 1]) || InFolder(path, stream[|stream| - 1], f)
  {
  }

  /** A name is collected exactly when some key of the stream lies inside that child folder. */
  lemma {:induction false} FolderNamesExactly(path: string, stream: seq<ObjectInfo>, f: string)
    ensures f in FolderNames(path, stream) <==> exists i :: 0 <= i < |stream| && InFolder(path, stream[i], f)
  {
    if stream != [] {
      var init := stream[..|stream| - 1];
      FolderNamesExactly(path, init, f);
      FolderNamesStep(path, stream, f);
      if f in FolderNames(path, stream) {
        if f in FolderNames(path, init) {
          var i :| 0 <= i < |init| && InFolder(path, init[i], f);
          assert stream[i] == init[i];
        } else {
          assert InFolder(path, stream[|stream| - 1], f);
        }
      } else {
        forall i | 0 <= i < |stream| ensures !InFolder(path, stream[i], f) {
          if i < |init| {
            assert stream[i] == init[i];
          }
        }
      }
    }
  }

  /** File entries are all files. */
  lemma {:induction false} FileEntriesAreFiles(path: string, stream: seq<ObjectInfo>)
    ensures forall e :: e in FileEntries(path, stream) ==> e.File?
  {
    if stream != [] {
      FileEntriesAreFiles(path, stream[..|stream| - 1]);
    }
  }

  /** A file entry is there exactly when some key of the stream sits at this level with a listed extension. */
  lemma {:induction false} FileEntriesExactly(path: string, stream: seq<ObjectInfo>, e: Entry)
    ensures e in FileEntries(path, stream) <==> exists i :: 0 <= i < |stream| && ListedAs(path, stream[i], e)
  {
    if stream != [] {
      var init := stream[..|stream| - 1];
      var last := stream[|stream| - 1];
      FileEntriesExactly(path, init, e);
      assert FileEntries(path, stream) == FileEntries(path, init)
        + if AtThisLevel(path, last.name) && IsListedName(last.name) then [File(last.name, Stamp(last.lastModified))] else [];
      assert stream == init + [last];
      ListedInSplit(path, stream, init, last, e);
    }
  }

  /** A key of a non-empty stream is a key of its front or its last key. */
  lemma ListedInSplit(path: string, stream: seq<ObjectInfo>, init: seq<ObjectInfo>, last: ObjectInfo, e: Entry)
    requires stream == init + [last]
    ensures (exists i :: 0 <= i < |stream| && ListedAs(path, stream[i], e))
        <==> (exists i :: 0 <= i < |init| && ListedAs(path, init[i], e)) || ListedAs(path, last, e)
  {
    if exists i :: 0 <= i < |init| && ListedAs(path, init[i], e) {
      var i :| 0 <= i < |init| && ListedAs(path, init[i], e);
      assert stream[i] == init[i];
    }
    if exists i :: 0 <= i < |stream| && ListedAs(path, stream[i], e) {
      var i :| 0 <= i < |stream| && ListedAs(path, stream[i], e);
      if i < |init| {
        assert init[i] == stream[i];
      }
    }
    assert stream[|init|] == last;
  }

  /** Files keep stream order: the file entries of a concatenation are the concatenation of the file entries. */
  lemma {:induction false} FileEntriesKeepOrder(path: string, s1: seq<ObjectInfo>, s2: seq<ObjectInfo>)
    ensures FileEntries(path, s1 + s2) == FileEntries(path, s1) + FileEntries(path, s2)
    decreases |s2|
  {
    if s2 != [] {
      var s2' := s2[..|s2| - 1];
      assert (s1 + s2)[..|s1 + s2| - 1] == s1 + s2';
      FileEntriesKeepOrder(path, s1, s2');
    } else {
      assert s1 + s2 == s1;
    }
  }

  /** A folder entry is `path` plus the child folder of some key of the stream. */
  lemma FolderEntryFromKey(path: string, stream: seq<ObjectInfo>, e: Entry)
    requires e in Entries(path, stream) && e.Folder?
    ensures exists i :: 0 <= i < |stream| && InChildFolder(path, stream[i].name)
                        && e.name == path + ChildFolder(path, stream[i].name)
  {
    var names := FolderNames(path, stream);
    var folders := FolderEntries(path, names);
    FileEntriesAreFiles(path, stream);
    assert e in folders;
    var i :| 0 <= i < |folders| && folders[i] == e;
    FolderNamesExactly(path, stream, names[i]);
    var j :| 0 <= j < |stream| && InFolder(path, stream[j], names[i]);
  }

  /** A file entry is a key of the stream directly at this level with a listed extension. */
  lemma FileEntryFromKey(path: string, stream: seq<ObjectInfo>, e: Entry)
    requires e in Entries(path, stream) && e.File?
    ensures exists i :: 0 <= i < |stream| && ListedAs(path, stream[i], e)
  {
    assert e !in FolderEntries(path, FolderNames(path, stream));
    FileEntriesExactly(path, stream, e);
  }

  /**
   * Every entry lies under the queried path, so keys that do not start
   * with it never contribute: folders are `path` plus a "/"-free name and
   * files are keys directly at this level with a listed extension.
   */
  lemma EntryUnderPath(path: string, stream: seq<ObjectInfo>, e: Entry)
    requires e in Entries(path, stream)
    ensures StartsWith(e.name, path)
    ensures e.File? ==> AtThisLevel(path, e.name) && IsListedName(e.name)
    ensures e.Folder? ==> '/' !in e.name[|path|..]
  {
    if e.Folder? {
      FolderEntryFromKey(path, stream, e);
      var j :| 0 <= j < |stream| && InChildFolder(path, stream[j].name) && e.name == path + ChildFolder(path, stream[j].name);
      ChildFolderIsFirstSegment(path, stream[j].name);
      assert e.name[|path|..] == ChildFolder(path, stream[j].name);
    } else {
      FileEntryFromKey(path, stream, e);
    }
  }

  /** A stored key inside a child folder makes that folder's entry appear. */
  lemma ChildFolderListed(objects: map<Key, StoredObject>, path: string, stream: seq<ObjectInfo>, k: Key)
    requires IsListing(objects, path, stream)
    requires k in objects && InChildFolder(path, k)
    ensures Folder(path + ChildFolder(path, k)) in Entries(path, stream)
  {
    var names := FolderNames(path, stream);
    var i :| 0 <= i < |stream| && stream[i].name == k;
    assert InFolder(path, stream[i], ChildFolder(path, k));
    FolderNamesExactly(path, stream, ChildFolder(path, k));
    var j :| 0 <= j < |names| && names[j] == ChildFolder(path, k);
    assert FolderEntries(path, names)[j] == Folder(path + ChildFolder(path, k));
  }

  /** A stored key directly at this level is a file entry exactly when its name has a listed extension. */
  lemma DirectKeyListed(objects: map<Key, StoredObject>, path: string, stream: seq<ObjectInfo>, k: Key)
    requires IsListing(objects, path, stream)
    requires k in objects && AtThisLevel(path, k)
    ensures File(k, Stamp(objects[k].lastModified)) in Entries(path, stream) <==> IsListedName(k)
  {
    var e := File(k, Stamp(objects[k].lastModified));
    var i :| 0 <= i < |stream| && stream[i].name == k;
    assert Reports(objects, path, stream[i]);
    FileEntriesExactly(path, stream, e);
    if IsListedName(k) {
      assert ListedAs(path, stream[i], e);
    }
    assert e !in FolderEntries(path, FolderNames(path, stream));
  }

  /**
   * Listing a folder partitions the keys below it. For every stored key
   * under the normalised path: a key inside a child folder yields that
   * folder's entry, and a key directly at this level yields a file entry
   * exactly when its name has a listed extension. Conversely every folder
   * entry is a strict prefix ancestor of a stored key, and every file entry
   * is a stored key.
   */
  lemma ListingPartitionsKeys(objects: map<Key, StoredObject>, path: string, stream: seq<ObjectInfo>)
    requires IsListing(objects, path, stream)
    ensures forall k :: k in objects && InChildFolder(path, k) ==> Folder(path + ChildFolder(path, k)) in Entries(path, stream)
    ensures forall k :: k in objects && AtThisLevel(path, k) ==>
              (File(k, Stamp(objects[k].lastModified)) in Entries(path, stream) <==> IsListedName(k))
    ensures forall e :: e in Entries(path, stream) && e.Folder? ==>
              exists k :: k in objects && StartsWith(k, e.name + "/")
    ensures forall e :: e in Entries(path, stream) && e.File? ==> e.name in objects
  {
    forall k | k in objects && InChildFolder(path, k)
      ensures Folder(path + ChildFolder(path, k)) in Entries(path, stream)
    {
      ChildFolderListed(objects, path, stream, k);
    }
    forall k | k in objects && AtThisLevel(path, k)
      ensures File(k, Stamp(objects[k].lastModified)) in Entries(path, stream) <==> IsListedName(k)
    {
      DirectKeyListed(objects, path, stream, k);
    }
    forall e | e in Entries(path, stream) && e.Folder?
      ensures exists k :: k in objects && StartsWith(k, e.name + "/")
    {
      FolderEntryFromKey(path, stream, e);
      var j :| 0 <= j < |stream| && InChildFolder(path, stream[j].name) && e.name == path + ChildFolder(path, stream[j].name);
      ChildFolderIsFirstSegment(path, stream[j].name);
      assert Reports(objects, path, stream[j]);
    }
    forall e | e in Entries(path, stream) && e.File?
      ensures e.name in objects
    {
      FileEntryFromKey(path, stream, e);
      var i :| 0 <= i < |stream| && ListedAs(path, stream[i], e);
      assert Reports(objects, path, stream[i]);
    }
  }

  /**
   * Two keys in the same child folder give one folder entry: the entries
   * of one listing never repeat a folder.
   */
  lemma FoldersAppearOnce(path: string, stream: seq<ObjectInfo>)
    ensures forall i, j :: 0 <= i < j < |Entries(path, stream)| && Entries(path, stream)[i].Folder? ==>
              Entries(path, stream)[i] != Entries(path, stream)[j]
  {
    var names := FolderNames(path, stream);
    var folders := FolderEntries(path, names);
    var entries := Entries(path, stream);
    FolderNamesDistinct(path, stream);
    FileEntriesAreFiles(path, stream);
    forall i, j | 0 <= i < j < |entries| && entries[i].Folder?
      ensures entries[i] != entries[j]
    {
      if j < |folders| {
        assert entries[i] == Folder(path + names[i]) && entries[j] == Folder(path + names[j]);
        assert names[i] != names[j];
        assert (path + names[i])[|path|..] == names[i];
        assert (path + names[j])[|path|..] == names[j];
      } else {
        assert entries[j] == FileEntries(path, stream)[j - |folders|];
        assert entries[j] in FileEntries(path, stream);
      }
    }
  }

  /** Every folder entry comes before every file entry. */
  lemma FoldersBeforeFiles(path: string, stream: seq<ObjectInfo>)
    ensures forall i, j :: 0 <= i < j < |Entries(path, stream)| && Entries(path, stream)[j].Folder? ==>
              Entries(path, stream)[i].Folder?
  {
    var folders := FolderEntries(path, FolderNames(path, stream));
    var entries := Entries(path, stream);
    FileEntriesAreFiles(path, stream);
    assert entries == folders + FileEntries(path, stream);
    forall j | |folders| <= j < |entries| ensures entries[j].File? {
      assert entries[j] == FileEntries(path, stream)[j - |folders|];
    }
  }

  /**
   * A folder holding nothing but its `.keep` marker is still listed as a
   * folder, and a marker directly at the listed level is never a file.
   */
  lemma MarkerKeepsFolderVisible(objects: map<Key, StoredObject>, path: string, stream: seq<ObjectInfo>, c: string)
    requires IsListing(objects, path, stream)
    requires '/' !in c
    requires path + c + "/" + ".keep" in objects
    ensures Folder(path + c) in Entries(path, stream)
    ensures forall lm :: File(path + ".keep", lm) !in Entries(path, stream)
  {
    ChildFolderOf(path, c, ".keep");
    ChildFolderListed(objects, path, stream, path + c + "/" + ".keep");
    var marker := path + ".keep";
    assert marker[|marker| - 4..] == "keep";
    assert marker[|marker| - 5..] == ".keep";
    assert !IsListedName(marker);
    forall lm ensures File(marker, lm) !in Entries(path, stream) {
      if File(marker, lm) in Entries(path, stream) {
        EntryUnderPath(path, stream, File(marker, lm));
      }
    }
  }
}
