/** The ways a run ends early, and the option and result types used to carry
    them. `Fail` is the program's own `fail` helper (message on standard error,
    exit status 1); the other variants are the exceptions that escape `run`
    uncaught and end the process the same way. */
module Failures {

  datatype Option<T> = None | Some(value: T)

  datatype Result<T> = Ok(value: T) | Err(error: Error)

  datatype Error =
    | Fail(message: string)              // fail(...): the feed was rejected
    | MalformedEntryId(entryId: string)  // IndexError: entry id has fewer than three ':' fields
    | DownloadFailed(videoUrl: string)   // the downloader raised for this video
    | NoMatchingFormat(formatId: string) // StopIteration: chosen format absent from the format table
    | NoThumbnail(videoId: string)       // IndexError: entry has no media thumbnail
    | MissingLedger                      // IOError: download_log could not be opened
    | ShortLedgerLine(line: string)      // IndexError: a non-blank archive line has one field
}
