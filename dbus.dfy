/** What a D-Bus method call hands back to its caller, and the answers of
    the dialogs the agents consult, taken as plain inputs. */
module Dbus {

  /** A call either returns its value or fails with a named D-Bus error
      (QDBusContext::sendErrorReply; the return value is then discarded). */
  datatype Reply<T> = Return(value: T) | ErrorReply(name: string, message: string)

  /** The outcome of a modal QDialog. */
  datatype DialogResult = Accepted | Rejected

  /** The button chosen in a Yes/No QMessageBox. */
  datatype Answer = Yes | No
}
