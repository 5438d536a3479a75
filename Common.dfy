/** Vocabulary shared by the modelled services: Java's null, entity ids,
    exceptions that escape a call, and the net.hawkengine result envelope. */
module Common {

  /** A nullable Java reference: None stands for null. */
  datatype Option<+T> = None | Some(value: T)

  /** Entity ids are strings (UUIDs rendered as text when the entity creates them). */
  type Id = string

  /** The unchecked exceptions that the modelled code lets escape to its caller. */
  datatype JavaException = NullPointerException | IllegalArgumentException

  /** What a Java call does: return a value, or throw. */
  datatype Outcome<+R> = Returns(value: R) | Throws(exception: JavaException)

  /** net.hawkengine.model.ServiceResult: the object carried (null is None),
      the error flag and the human-readable message. */
  datatype ServiceResult<+E> = ServiceResult(entity: Option<E>, error: bool, message: string)
}
