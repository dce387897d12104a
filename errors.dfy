/**
 * The application's error classes (src/presentation/errors/AppError.ts).
 * `AppError` carries a message and an HTTP status; its four subclasses fix
 * the status. Anything thrown that is not an `AppError` is `Internal`.
 */
module Errors {
  import opened Wrappers

  datatype ErrorClass = Base | Validation | Authentication | Forbidden | NotFound

  datatype AppError = AppError(cls: ErrorClass, message: string, statusCode: int)

  /** What a use case or middleware can throw. */
  datatype Thrown = App(error: AppError) | Internal(message: string)

  /** A call that either returns a value or throws. */
  datatype Result<+T> = Ok(value: T) | Err(thrown: Thrown)

  /** `new AppError(message, statusCode?)`: the status defaults to 400. */
  function NewAppError(message: string, statusCode: Option<int>): (e: AppError)
    ensures e.cls == Base && e.message == message
    ensures statusCode.None? ==> e.statusCode == 400
    ensures statusCode.Some? ==> e.statusCode == statusCode.value
  {
    AppError(Base, message, statusCode.GetOr(400))
  }

  /** `new ValidationError(message)` */
  function ValidationError(message: string): (e: AppError)
    ensures e.cls == Validation && e.message == message && e.statusCode == 400
  {
    NewAppError(message, Some(400)).(cls := Validation)
  }

  /** `new AuthenticationError(message)` */
  function AuthenticationError(message: string): (e: AppError)
    ensures e.cls == Authentication && e.message == message && e.statusCode == 401
  {
    NewAppError(message, Some(401)).(cls := Authentication)
  }

  /** `new ForbiddenError(message)` */
  function ForbiddenError(message: string): (e: AppError)
    ensures e.cls == Forbidden && e.message == message && e.statusCode == 403
  {
    NewAppError(message, Some(403)).(cls := Forbidden)
  }

  /** `new NotFoundError(message)` */
  function NotFoundError(message: string): (e: AppError)
    ensures e.cls == NotFound && e.message == message && e.statusCode == 404
  {
    NewAppError(message, Some(404)).(cls := NotFound)
  }

  /** The error a subclass constructor builds. */
  function Raise(cls: ErrorClass, message: string): (e: AppError)
    requires cls != Base
  {
    match cls
    case Validation => ValidationError(message)
    case Authentication => AuthenticationError(message)
    case Forbidden => ForbiddenError(message)
    case NotFound => NotFoundError(message)
  }

  /**
   * The four subclasses have pairwise distinct statuses, all in 4xx, so the
   * status alone tells which subclass was thrown, whatever the messages.
   */
  lemma StatusIdentifiesSubclass(c1: ErrorClass, m1: string, c2: ErrorClass, m2: string)
    requires c1 != Base && c2 != Base
    ensures 400 <= Raise(c1, m1).statusCode < 500
    ensures Raise(c1, m1).statusCode == Raise(c2, m2).statusCode <==> c1 == c2
    ensures Raise(c1, m1).message == m1
  {
  }
}
