/** Annexures: uploading a reference file (no ownership check, a name is
    required) and deleting one, which removes the stored object named by the
    last segment of its public URL and then the row. */
module Annexures {
  import opened Common
  import opened Strings
  import opened Uploads

  /** `uploadAnnexure`: after the multer stage a missing file is a 400, then
      a falsy name is a 400. The handler has no ownership check; the route
      admits teachers and admins only (`authorize(['teacher', 'admin'])`,
      modelled by `AuthMiddleware.Authorize`). */
  function AnnexureUpload(received: Received, name: Option<string>, caller: Caller,
                          storageOk: bool, publicUrl: string, insertOk: bool): (o: UploadOutcome)
    ensures !received.Accepted? ==> o == UploadOutcome(400, None, None)
    ensures received.Accepted? && !TextTruthy(name) ==> o == UploadOutcome(400, None, None)
    ensures o.stored.Some? <==> received.Accepted? && TextTruthy(name) && storageOk
    ensures o.status == 201 <==> received.Accepted? && TextTruthy(name) && storageOk && insertOk
    ensures received.Accepted? && TextTruthy(name) ==>
              o == StoreAndRecord(received.file, name.value, caller, storageOk, publicUrl, insertOk)
    ensures o.record.Some? ==> o.record.value.name == name.value && o.record.value.createdBy == caller.id
                               && o.record.value.fileType == FileType(received.file.mimetype)
  {
    if !received.Accepted? then UploadOutcome(400, None, None)
    else if !TextTruthy(name) then UploadOutcome(400, None, None)
    else StoreAndRecord(received.file, name.value, caller, storageOk, publicUrl, insertOk)
  }

  /** `fileUrl.substring(fileUrl.lastIndexOf('/') + 1)`: the storage object
      name is what follows the last '/', or the whole URL when it has none. */
  function StorageFileName(fileUrl: string): (name: string)
    ensures '/' !in name
    ensures |name| <= |fileUrl| && name == fileUrl[|fileUrl| - |name|..]
    ensures |name| == |fileUrl| || fileUrl[|fileUrl| - |name| - 1] == '/'
  {
    AfterLastIndexOf(fileUrl, '/');
    fileUrl[LastIndexOf(fileUrl, '/') + 1..]
  }

  lemma AfterLastIndexOf(s: string, c: char)
    ensures c !in s[LastIndexOf(s, c) + 1..]
  {
    var k := LastIndexOf(s, c);
    var t := s[k + 1..];
    forall i | 0 <= i < |t|
      ensures t[i] != c
    {
      assert t[i] == s[k + 1 + i];
    }
  }

  /** A URL without '/' names itself. */
  lemma StorageFileNameWithoutSlash(fileUrl: string)
    requires '/' !in fileUrl
    ensures StorageFileName(fileUrl) == fileUrl
  {
  }

  /** The public URL of an upload is the bucket's base URL, '/', and the
      stored file name (a uuid and the original extension, without '/');
      deleting recovers exactly that name. */
  lemma StorageFileNameOfPublicUrl(base: string, fileName: string)
    requires '/' !in fileName
    ensures StorageFileName(base + "/" + fileName) == fileName
  {
    var url := base + "/" + fileName;
    var k := LastIndexOf(url, '/');
    assert url[|base|] == '/';
    assert forall j :: |base| < j < |url| ==> url[j] == fileName[j - |base| - 1];
    assert k == |base|;
    assert url[k + 1..] == fileName;
  }

  /** The columns the delete reads from the existing row. */
  datatype AnnexureRef = AnnexureRef(createdBy: Option<int>, fileUrl: string)

  /** How a delete ends: the status code, the storage object removed (if
      the removal succeeded) and whether the row was deleted. */
  datatype DeleteOutcome = DeleteOutcome(status: int, removed: Option<string>, rowDeleted: bool)

  /** `deleteAnnexure`: 404 when the row is missing, 403 unless the caller
      created it or is an admin; then the stored object is removed, and a
      failure there is only logged: the row is deleted either way. */
  function DeleteAnnexure(existing: Option<AnnexureRef>, caller: Caller, storageOk: bool, deleteOk: bool): (o: DeleteOutcome)
    ensures existing.None? ==> o == DeleteOutcome(404, None, false)
    ensures existing.Some? && !CanModify(existing.value.createdBy, caller) ==> o == DeleteOutcome(403, None, false)
    ensures o.rowDeleted <==> existing.Some? && CanModify(existing.value.createdBy, caller) && deleteOk
    ensures o.removed.Some? <==> existing.Some? && CanModify(existing.value.createdBy, caller) && storageOk
    ensures o.removed.Some? ==> o.removed.value == StorageFileName(existing.value.fileUrl)
    ensures o.status == 200 <==> o.rowDeleted
  {
    if existing.None? then DeleteOutcome(404, None, false)
    else if !CanModify(existing.value.createdBy, caller) then DeleteOutcome(403, None, false)
    else
      var removed := if storageOk then Some(StorageFileName(existing.value.fileUrl)) else None;
      if deleteOk then DeleteOutcome(200, removed, true) else DeleteOutcome(500, removed, false)
  }

  /** Whether the row goes and what the client is told do not depend on the
      storage removal. */
  lemma StorageFailureDoesNotBlockDelete(existing: Option<AnnexureRef>, caller: Caller, deleteOk: bool)
    ensures DeleteAnnexure(existing, caller, false, deleteOk).rowDeleted == DeleteAnnexure(existing, caller, true, deleteOk).rowDeleted
    ensures DeleteAnnexure(existing, caller, false, deleteOk).status == DeleteAnnexure(existing, caller, true, deleteOk).status
  {
  }
}
