/** Shared vocabulary: optional values, the domain error taxonomy and the
    result type every repository and use case returns instead of raising. */
module Common {

  datatype Option<+T> = None | Some(value: T)

  /** One constructor per exception class the core can raise (or let escape). */
  datatype Error =
    | BookAlreadyExist
    | BookNotExist
    | FavouriteBookRepositoryError
    | FavouriteBookAlreadyExist
    | FavouriteBookNotExist
    | ReviewRepositoryError
    | ReviewAlreadyExist
    | ReviewNotExist
    | AuthorAlreadyExist
    | AuthorNotExist
    | UserAlreadyExist
    | InvalidCredentials
    | MinioUploadFile
    | MinioNotValidUrl
    | MinioFileDelete
      /** an IntegrityError no repository translates (an UPDATE breaking a foreign key) */
    | IntegrityViolation
      /** `scalar_one()` on an empty result */
    | NoResultFound
      /** pydantic refusing a payload while building a response */
    | ResponseValidation
      /** an S3 error the storage client lets escape */
    | S3Failure

  datatype Result<+T> = Ok(value: T) | Err(error: Error) {
    predicate IsFailure() { Err? }

    function PropagateFailure<U>(): Result<U>
      requires Err?
    {
      Err(error)
    }

    function Extract(): T
      requires Ok?
    {
      value
    }
  }

  /** Identifiers: the source uses UUIDs; the model uses naturals handed out fresh. */
  type Id = nat
}
