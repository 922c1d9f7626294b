/** Failure-compatible results shared by every service of the model, and the
    exceptions those services raise. */
module Outcomes {

  datatype Option<+T> = None | Some(value: T)

  /** The exceptions the services throw. The first three are the NestJS HTTP
      exceptions the services construct themselves; `Database` is an error the
      ORM raised and the service let through unchanged, identified by the
      ORM's error code. */
  datatype Error =
    | NotFound(message: string)
    | BadRequest(message: string)
    | Forbidden(message: string)
    | Database(code: string)

  datatype Result<+T> = Success(value: T) | Failure(error: Error)

  /** Prisma's error code for a violated unique constraint. */
  const UniqueViolation: string := "P2002"

  /** Prisma's error code for `delete` on a row that does not exist. */
  const RecordToDeleteMissing: string := "P2025"

  /** Decimal rendering of a generated row id, as it appears inside messages. */
  function NatToString(n: nat): string
    decreases n
  {
    if n < 10 then ["0123456789"[n]] else NatToString(n / 10) + ["0123456789"[n % 10]]
  }
}
