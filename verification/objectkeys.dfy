/** Object-store keys and local paths built by `s3_storage_handler.py`. */
module ObjectKeys {
  import opened Text

  const Slash: char := '/'
  const TmpDir: string := "/tmp/"

  /** `file_path.split("/")[-1]`: the name after the last slash, or the
      whole path when it has none. */
  function FileName(filePath: string): (name: string)
    ensures Slash !in name
    ensures Slash !in filePath ==> name == filePath
    ensures |name| <= |filePath| && name == filePath[|filePath| - |name|..]
    ensures |name| == |filePath| || filePath[|filePath| - |name| - 1] == Slash
  {
    LastSegmentIsSuffix(filePath, Slash);
    if Slash !in filePath then NoSeparatorSplit(filePath, Slash); LastSegment(filePath, Slash)
    else LastSegment(filePath, Slash)
  }

  /** `{folder}/{item_id}/{name}`. */
  function ObjectKey(folder: string, itemId: string, name: string): (key: string)
    ensures folder + [Slash] <= key
    ensures Slash !in name ==> FileName(key) == name
  {
    var key := folder + [Slash] + itemId + [Slash] + name;
    assert key == (folder + [Slash] + itemId) + [Slash] + name;
    assert Slash !in name ==> FileName(key) == name by {
      if Slash !in name {
        LastSegmentAfterSeparator(folder + [Slash] + itemId, Slash, name);
      }
    }
    key
  }

  /** The key `upload_file_to_s3` stores a local file under: it carries the
      file's own name as its last segment. */
  function UploadKey(folder: string, itemId: string, filePath: string): (key: string)
    ensures folder + [Slash] <= key
    ensures FileName(key) == FileName(filePath)
  {
    ObjectKey(folder, itemId, FileName(filePath))
  }

  /** The key `download_file_from_s3` fetches. */
  function DownloadKey(folder: string, itemId: string, fileName: string): (key: string)
    ensures folder + [Slash] <= key
    ensures Slash !in fileName ==> FileName(key) == fileName
  {
    ObjectKey(folder, itemId, fileName)
  }

  /** `/tmp/{file_name}`, where the download is written. */
  function DownloadPath(fileName: string): (path: string)
    ensures TmpDir <= path
    ensures Slash !in fileName ==> FileName(path) == fileName
  {
    var path := TmpDir + fileName;
    assert Slash !in fileName ==> FileName(path) == fileName by {
      if Slash !in fileName {
        assert path == "/tmp" + [Slash] + fileName;
        LastSegmentAfterSeparator("/tmp", Slash, fileName);
      }
    }
    path
  }

  /** Downloading by the name of an uploaded file asks for exactly the key the
      upload wrote, for the same folder and item. */
  lemma UploadDownloadAgree(folder: string, itemId: string, filePath: string)
    ensures UploadKey(folder, itemId, filePath) == DownloadKey(folder, itemId, FileName(filePath))
    ensures FileName(DownloadPath(FileName(filePath))) == FileName(filePath)
  {
  }

  /** A key built from slash-free parts splits back into those parts, so
      distinct folders, items or names never share a key. */
  lemma KeySegments(folder: string, itemId: string, name: string)
    requires Slash !in folder && Slash !in itemId && Slash !in name
    ensures Split(ObjectKey(folder, itemId, name), Slash) == [folder, itemId, name]
  {
    var left := folder + [Slash] + itemId;
    assert ObjectKey(folder, itemId, name) == left + [Slash] + name;
    SplitAround(left, Slash, name);
    SplitAround(folder, Slash, itemId);
    NoSeparatorSplit(folder, Slash);
    NoSeparatorSplit(itemId, Slash);
    NoSeparatorSplit(name, Slash);
  }

  /** Keys built from slash-free parts are equal only for equal parts. */
  lemma KeyInjective(f1: string, i1: string, n1: string, f2: string, i2: string, n2: string)
    requires Slash !in f1 && Slash !in i1 && Slash !in n1
    requires Slash !in f2 && Slash !in i2 && Slash !in n2
    ensures ObjectKey(f1, i1, n1) == ObjectKey(f2, i2, n2) <==> f1 == f2 && i1 == i2 && n1 == n2
  {
    KeySegments(f1, i1, n1);
    KeySegments(f2, i2, n2);
    if ObjectKey(f1, i1, n1) == ObjectKey(f2, i2, n2) {
      assert [f1, i1, n1][0] == [f2, i2, n2][0];
      assert [f1, i1, n1][1] == [f2, i2, n2][1];
      assert [f1, i1, n1][2] == [f2, i2, n2][2];
    }
  }
}
