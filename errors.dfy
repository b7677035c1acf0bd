/** The exceptions the dashboard raises, one variant each. */
module Errors {

  /** The two local cache files the registry is read from. */
  datatype CacheFile =
    | DocumentsList(year: int, month: int)  // cache/documents_list_YYYY-MM.csv
    | BasicInfo                              // cache/basic_info.csv

  datatype Error =
    | NotFound(file: CacheFile)                // FileNotFoundError from a loader
    | RemoteFetch(status: int, text: string)   // non-200 answer from the disclosure API
    | UnknownCorporation(corpNum: string)      // ValueError: JCN absent from the document index
}
