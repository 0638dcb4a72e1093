/** The records passed between the threads. */
module Message {

  /** What kind of transfer the merge thread is to handle next. */
  datatype TransferRequest = Copy | Merge

  /** Hash the contents of `srcPath`, a copy of the file at `subPath`. */
  datatype HashRequest = HashRequest(subPath: string, srcPath: string)

  /** The digest of `srcPath`, a copy of the file at `subPath`. */
  datatype HashResult = HashResult(subPath: string, srcPath: string, hash: string)

  /** Copy the only source copy of `subPath` to every write root. */
  datatype CopyToDestRequest = CopyToDestRequest(subPath: string, srcPath: string)

  /** Copy one source file to one destination file. */
  datatype CopyFileRequest = CopyFileRequest(srcPath: string, destPath: string)
}
