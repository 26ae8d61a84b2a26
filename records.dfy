/** The values the METS document model is made of: file records, physical pages,
    and the errors its operations report. */
module Records {

  datatype Option<+T> = None | Some(value: T)

  /** One mets:file entry. `pageId` is the page its structMap pointer (mets:fptr)
      links it to, if any. */
  datatype FileRec = FileRec(
    id: string,
    fileGrp: string,
    mimetype: Option<string>,
    url: Option<string>,
    local: Option<string>,
    pageId: Option<string>)

  /** One physical page (a mets:div of the physical structMap) with its ORDER
      attribute; a page created implicitly by add_file carries no order. */
  datatype Page = Page(id: string, order: Option<int>)

  /** The exceptions the operations raise, one constructor per condition. */
  datatype Error =
    | MissingId                       // "Must set ID of the mets:file"
    | InvalidFileId(id: string)       // "Invalid syntax for mets:file/@ID <id>"
    | InvalidFileGrp(name: string)    // ValueError "Invalid syntax for mets:fileGrp/@USE <name>"
    | FileExists(id: string)          // FileExistsError
    | NoSuchFileGrp(name: string)     // FileNotFoundError "No such fileGrp '<name>'"
    | FileGrpNotEmpty(name: string)   // "fileGrp <name> is not empty"
    | FileGrpExists(name: string)     // rename target already taken (see README)
    | FileNotFound(id: string)        // remove_one_file of an ID no record carries

  datatype Result<+T> = Ok(value: T) | Err(error: Error)
}
