/**
 * POST /api/upload-file: the uploaded file is written at
 * `ruta_prefix + file.name` and a URL for it is returned.
 */
module UploadFileRoute {
  import opened Wrappers
  import opened Text
  import opened Store
  import ListFilesRoute

  /** The uploaded form field: the file's name and bytes. */
  datatype Upload = Upload(name: string, bytes: seq<bv8>)

  /** The environment values the URL is built from; `None` when unset. */
  datatype Env = Env(endpoint: Option<string>, port: Option<string>, bucketName: Option<string>)

  datatype Response = Uploaded(fileUrl: string) | BadRequest | ServerError {
    function Status(): nat {
      match this
      case Uploaded(_) => 200
      case BadRequest => 400
      case ServerError => 500
    }
  }

  /** `MINIO_BUCKET_NAME || "mermaid"` */
  function BucketName(env: Env): (name: string)
    ensures name != ""
    ensures Given(env.bucketName) ==> name == env.bucketName.value
  {
    if Given(env.bucketName) then env.bucketName.value else "mermaid"
  }

  /** An environment value interpolated into a template string: "undefined" when unset. */
  function Interpolated(value: Option<string>): string {
    value.GetOr("undefined")
  }

  /** The key the file is stored under: the prefix (or "" when missing or empty) followed by the file name. */
  function UploadKey(rutaPrefix: Option<string>, name: string): (key: Key)
    ensures EndsWith(key, name)
    ensures !Given(rutaPrefix) ==> key == name
    ensures Given(rutaPrefix) ==> StartsWith(key, rutaPrefix.value) && |key| == |rutaPrefix.value| + |name|
  {
    var prefix := if Given(rutaPrefix) then rutaPrefix.value else "";
    assert (prefix + name)[|prefix + name| - |name|..] == name;
    assert (prefix + name)[..|prefix|] == prefix;
    prefix + name
  }

  /** The returned URL: endpoint, port, bucket and file name; the prefix plays no part. */
  function FileUrl(env: Env, name: string): (url: string)
    ensures StartsWith(url, "http://")
    ensures EndsWith(url, "/" + BucketName(env) + "/" + name)
  {
    var tail := "/" + BucketName(env) + "/" + name;
    var url := "http://" + Interpolated(env.endpoint) + ":" + Interpolated(env.port) + tail;
    assert url[|url| - |tail|..] == tail;
    assert url[..7] == "http://";
    url
  }

  /**
   * The handler. A missing file is refused before the store is called;
   * otherwise the bytes are written at the upload key, overwriting any
   * object already there, and the URL is returned. Store call 0 is the
   * write.
   */
  method Post(bucket: Bucket, file: Option<Upload>, rutaPrefix: Option<string>, env: Env, refused: set<nat>, now: string)
    returns (response: Response)
    modifies bucket
    ensures response.BadRequest? <==> file.None?
    ensures response.Uploaded? <==> file.Some? && 0 !in refused
    ensures response.Uploaded? ==> response.fileUrl == FileUrl(env, file.value.name)
    ensures bucket.objects == if response.Uploaded?
                              then old(bucket.objects)[UploadKey(rutaPrefix, file.value.name) := StoredObject(file.value.bytes, now)]
                              else old(bucket.objects)
  {
    var prefix := if rutaPrefix.Some? && rutaPrefix.value != "" then rutaPrefix.value else "";
    if file.None? {
      return BadRequest;
    }
    var fileName := file.value.name;
    var ok := bucket.PutObject(prefix + fileName, StoredObject(file.value.bytes, now), 0 in refused);
    if !ok {
      return ServerError;
    }
    var fileUrl := "http://" + Interpolated(env.endpoint) + ":" + Interpolated(env.port) + "/" + BucketName(env) + "/" + fileName;
    response := Uploaded(fileUrl);
  }

  /**
   * The URL names the bucket and the file name only. Without a prefix
   * its path is the stored key; two uploads of one name into different
   * folders are stored under different keys and get the same URL.
   */
  lemma UrlOmitsPrefix(env: Env, p1: string, p2: string, name: string)
    requires p1 != p2 && p1 != "" && p2 != ""
    ensures EndsWith(FileUrl(env, name), "/" + BucketName(env) + "/" + UploadKey(None, name))
    ensures UploadKey(Some(p1), name) != UploadKey(Some(p2), name)
  {
  }

  /**
   * A file uploaded into a folder with a listed extension shows up when
   * that folder is listed, with the stamp it was written with.
   */
  lemma UploadedFileIsListed(objects: map<Key, StoredObject>, folder: string, file: Upload, now: string,
                             stream: seq<ObjectInfo>)
    requires folder == "" || EndsWith(folder, "/")
    requires '/' !in file.name && IsListedName(file.name)
    requires IsListing(objects[UploadKey(Some(folder), file.name) := StoredObject(file.bytes, now)], folder, stream)
    ensures ListFilesRoute.File(folder + file.name, Stamp(now)) in ListFilesRoute.Entries(folder, stream)
  {
    var key := UploadKey(Some(folder), file.name);
    assert key == folder + file.name;
    var after := objects[key := StoredObject(file.bytes, now)];
    assert key[|folder|..] == file.name;
    assert StartsWith(key, folder);
    assert EndsWith(key, file.name);
    assert IsListedName(key) by {
      assert forall ext: string :: EndsWith(file.name, ext) ==> EndsWith(key, ext);
    }
    ListFilesRoute.DirectKeyListed(after, folder, stream, key);
  }
}
