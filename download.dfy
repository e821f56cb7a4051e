/** `descargarArchivoDeInternet` and the file removal that follows the
    wallpaper change: a temporary image file named `<unique id>.<extension>`
    is created in the working directory and later deleted. Only which file
    names exist is modelled, not their contents. */
module Download {
  import opened Failures
  import Http

  /** `extensionImagenSegunContentType`: the file extension for a
      `Content-Type` header value. */
  function Extension(contentType: string): (r: string)
    ensures r == "jpg" <==> contentType == "image/jpeg" || contentType == "image/jpg"
    ensures r == "png" <==> contentType == "image/png"
    ensures r == "" <==> contentType !in {"image/jpeg", "image/jpg", "image/png"}
  {
    if contentType == "image/jpeg" || contentType == "image/jpg" then "jpg"
    else if contentType == "image/png" then "png"
    else ""
  }

  /** `fmt.Sprintf("%s.%s", id, ext)`. */
  function FileName(uniqueId: string, contentType: string): string
  {
    uniqueId + "." + Extension(contentType)
  }

  /** The name always starts with the id and a dot; it ends in that bare dot
      exactly when the content type is not one of the three image types. */
  lemma FileNameShape(uniqueId: string, contentType: string)
    ensures var name := FileName(uniqueId, contentType);
      name[..|uniqueId|] == uniqueId && name[|uniqueId|] == '.' &&
      (name[|name| - 1] == '.' <==> contentType !in {"image/jpeg", "image/jpg", "image/png"})
  {
    var name := FileName(uniqueId, contentType);
    if Extension(contentType) == "" {
      assert name == uniqueId + ".";
    }
  }

  /** The process's working directory, as the set of file names in it. */
  class WorkingDirectory {
    var files: set<string>

    constructor (files: set<string>)
      ensures this.files == files
    {
      this.files := files;
    }

    /** Downloads the image a reply carries. No reply: transport error and no
        file. Otherwise the name comes from the id and the content type (the
        status is not looked at); if the file cannot be created nothing is
        left behind, but if copying the body fails the created file stays and
        its name is returned together with the error. */
    method Fetch(reply: Http.Reply, uniqueId: string, createFails: bool, copyFails: bool)
      returns (name: string, err: Option<Error>)
      modifies this
      ensures reply.Unreachable? ==> name == "" && err == Some(Transport) && files == old(files)
      ensures reply.Response? && createFails ==>
        name == "" && err == Some(FileSystem) && files == old(files)
      ensures reply.Response? && !createFails ==>
        name == FileName(uniqueId, reply.contentType) &&
        files == old(files) + {name} &&
        err == (if copyFails then Some(FileSystem) else None)
    {
      if reply.Unreachable? {
        return "", Some(Transport);
      }
      name := FileName(uniqueId, reply.contentType);
      if createFails {
        return "", Some(FileSystem);
      }
      files := files + {name};
      err := if copyFails then Some(FileSystem) else None;
    }

    /** `os.Remove`: on success the file is gone, on failure nothing changes. */
    method Remove(name: string, fails: bool) returns (err: Option<Error>)
      modifies this
      ensures fails ==> err == Some(FileSystem) && files == old(files)
      ensures !fails ==> err == None && files == old(files) - {name}
    {
      if fails {
        return Some(FileSystem);
      }
      files := files - {name};
      err := None;
    }
  }
}
