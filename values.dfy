/** Values held in the catalog's documents, and the errors its operations raise. */
module Values {

  /** A field value of a stored document: the closed, JSON-like subset the catalog uses. */
  datatype Value =
    | VStr(s: string)
    | VBool(b: bool)
    | VInt(i: int)
    | VNull
    | VList(items: seq<Value>)
    | VMap(fields: map<string, Value>)

  /** A document (a Python dict with string keys): an archive record, a version entry or a spec document. */
  type Document = map<string, Value>

  datatype Option<+T> = None | Some(value: T)

  /** The exceptions the core raises or lets through, one constructor per kind. */
  datatype Error =
    | KeyError(msg: string)                           // Python KeyError; a bare `raise KeyError` has msg ""
    | ConnectionError(msg: string)                    // the adapter's uniform connectivity failure
    | NotImplemented(msg: string)                     // a base-class stub was reached
    | ServerSelectionTimeout                          // pymongo's raw timeout, caught at the adapter boundary
    | DuplicateKeyError                               // pymongo insert_one on an existing _id
    | CollectionInvalid(msg: string)                  // pymongo create_collection on an existing name
    | BulkWriteError                                  // pymongo insert_many hit an existing _id
    | OperationFailure                                // $set/$push through a field of the wrong type
    | TypeError                                       // e.g. subscripting the None that find_one returned
    | AssertionError                                  // a failed isinstance assertion
    | IndexError                                      // a list index out of range
    | MissingRequirement(key: string, description: Value)  // check_requirements without helper

  datatype Result<+T> = Ok(value: T) | Err(error: Error)
}
