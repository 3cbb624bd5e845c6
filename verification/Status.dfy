/** The result codes of the library that the modelled operations return. */
module Status {
  datatype Status =
    | Ok
    | NoCanDo
    | InvalidArgument
    | WrongContext
    | InvalidContext
    | InternalError
    | Exists
    | ConflictingSemver
    | Conflict
    | Exhausted
    | MoldMissing
    | WrongValueType
    | NotExist
    | RestrictionViolated
    | ElementsInvalid
    | ConfigInvalid
    | DefaultMissing
    | FsError
    | InsufficientResources
}
