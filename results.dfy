/** Optional values, results and the errors the pipeline raises. */
module Results {

  datatype Option<+T> = None | Some(value: T)

  datatype Result<+T, +E> = Ok(value: T) | Err(error: E)

  /** The exceptions the content pipeline raises, one variant per cause. */
  datatype Error =
    /** `Page.__init__`: the content path does not exist (ValueError). */
    | MissingContent
    /** `Page.__init__`: a segment before the body does not unpack into `name, value` (ValueError). */
    | MalformedHeader(segment: string)
    /** `Page.__init__`: a header names a property of `Page` that has no setter (AttributeError). */
    | ReadOnlyAttribute(name: string)
    /** `Collection.pages`: the content root is not a directory (ValueError). */
    | InvalidContentRoot(path: string)
    /** `getattr(page, name)` on a page without that attribute (AttributeError). */
    | MissingAttribute(name: string)
    /** `sorted` compared a string key with a list key (TypeError). */
    | NotComparable
    /** a list value used as a bucket key of the grouping dictionary (TypeError). */
    | Unhashable
    /** `Page.__str__` called `.lower()` on a list value (AttributeError). */
    | NotText
    /** `chunked` asked for chunks of negative size (ValueError from `islice`). */
    | InvalidPageSize
}
