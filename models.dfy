/** The records the REST services exchange (core/models.py) and the payloads they accept. */
module Models {
  import opened Results

  /** An author as the services return it; `middleName` is a nullable column. */
  datatype Author = Author(id: int, lastName: string, firstName: string, middleName: Option<string>)

  /** A book joined to its author. */
  datatype Book = Book(id: int, title: string, author: Author)

  /** The `author` object of a request body, every field optional. */
  datatype AuthorPayload = AuthorPayload(
    id: Option<int>,
    lastName: Option<string>,
    firstName: Option<string>,
    middleName: Option<string>)

  /** A book request body, every field optional. */
  datatype BookPayload = BookPayload(id: Option<int>, title: Option<string>, author: Option<AuthorPayload>)
}
