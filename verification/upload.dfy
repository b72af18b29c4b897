/**
 * Where an uploaded PDF belongs: an administrator's public audiobook or a user's
 * private book, decided from the storage path alone.
 */
module Upload {
  import opened Wrappers
  import opened Text

  /** The upload context: the book it belongs to and the folder its OCR output
      goes under. */
  datatype UploadContext =
    | Admin(bookId: string, basePrefix: string)
    | User(userId: string, docId: string, basePrefix: string)

  /** getUploadContext: `audiobooks/{bookId}/...` is checked first, then
      `users/{uid}/mybooks/{docId}/...`; any other path has no context. */
  function GetUploadContext(filePath: string): Option<UploadContext>
  {
    var parts := Split(filePath, Char('/'));
    if |parts| >= 2 && parts[0] == "audiobooks" then
      Some(Admin(parts[1], "audiobooks/" + parts[1]))
    else if |parts| >= 4 && parts[0] == "users" && parts[2] == "mybooks" then
      Some(User(parts[1], parts[3], "users/" + parts[1] + "/mybooks/" + parts[3]))
    else
      None
  }

  /** A context names single path segments and its base prefix begins the path. */
  lemma UploadContextSound(filePath: string)
    ensures GetUploadContext(filePath).Some? ==>
      GetUploadContext(filePath).value.basePrefix <= filePath
    ensures GetUploadContext(filePath).Some? && GetUploadContext(filePath).value.Admin? ==>
      var ctx := GetUploadContext(filePath).value;
      '/' !in ctx.bookId && ctx.basePrefix == "audiobooks/" + ctx.bookId
    ensures GetUploadContext(filePath).Some? && GetUploadContext(filePath).value.User? ==>
      var ctx := GetUploadContext(filePath).value;
      && '/' !in ctx.userId && '/' !in ctx.docId
      && ctx.basePrefix == "users/" + ctx.userId + "/mybooks/" + ctx.docId
  {
    var parts := Split(filePath, Char('/'));
    SplitSound(filePath, '/');
    if |parts| >= 2 {
      JoinTakePrefix(parts, "/", 2);
      assert parts[..2][1..] == [parts[1]];
      assert Join(parts[..2], "/") == parts[0] + "/" + parts[1];
    }
    if |parts| >= 4 && parts[0] != "audiobooks" && parts[0] == "users" && parts[2] == "mybooks" {
      JoinTakePrefix(parts, "/", 4);
      var xs := parts[..4];
      var a := xs[2..];
      assert a == [parts[2], parts[3]] && a[1..] == [parts[3]];
      assert Join(a, "/") == parts[2] + "/" + parts[3];
      assert xs[1..][1..] == a;
      assert Join(xs[1..], "/") == parts[1] + "/" + Join(a, "/");
      assert Join(xs, "/") == parts[0] + "/" + (parts[1] + "/" + (parts[2] + "/" + parts[3]));
      assert Join(xs, "/") == "users/" + parts[1] + "/mybooks/" + parts[3];
    }
  }

  /** A path assembled from segments is classified by those segments: the admin
      shape wins, then the user shape, and nothing else has a context. */
  lemma UploadContextOfSegments(segs: seq<string>)
    requires |segs| >= 1
    requires forall k :: 0 <= k < |segs| ==> '/' !in segs[k]
    ensures |segs| >= 2 && segs[0] == "audiobooks" ==>
      GetUploadContext(Join(segs, "/")) == Some(Admin(segs[1], "audiobooks/" + segs[1]))
    ensures !(|segs| >= 2 && segs[0] == "audiobooks")
            && |segs| >= 4 && segs[0] == "users" && segs[2] == "mybooks" ==>
      GetUploadContext(Join(segs, "/"))
      == Some(User(segs[1], segs[3], "users/" + segs[1] + "/mybooks/" + segs[3]))
    ensures !(|segs| >= 2 && segs[0] == "audiobooks")
            && !(|segs| >= 4 && segs[0] == "users" && segs[2] == "mybooks") ==>
      GetUploadContext(Join(segs, "/")).None?
  {
    SplitJoin(segs, '/');
  }
}
