/**
 FileActions: the two destructive operations. Each asks the platform to act
 on the file (Desktop.moveToTrash, File.delete) and catches every exception;
 a false return is turned into an exception inside the try block, so both
 kinds of failure end in the same error alert and neither reaches the caller.
 The platform call itself is foreign; its outcome is an input here.
 */
module FileActions {

  /** What the platform call did: returned its boolean, or threw. */
  datatype PlatformCall = Returned(ok: bool) | Threw

  /** What the user is shown: nothing, or an error alert with this text. */
  datatype Report = Succeeded | Alerted(message: string)

  const RecycleFailedMessage := "Unable to Recycle File, are you not on windows?"
  const DeleteFailedMessage := "Unable to Delete File"

  /** The try block shared by both operations: only a call that returns true passes. */
  function Attempt(call: PlatformCall, message: string): (r: Report)
    ensures r.Succeeded? <==> call == Returned(true)
    ensures r.Alerted? ==> r.message == message
  {
    match call
    case Returned(true) => Succeeded
    case _ => Alerted(message)
  }

  /** recycleFile: failure is reported exactly when the call returned false or threw. */
  function RecycleFile(call: PlatformCall): (r: Report)
    ensures r.Succeeded? <==> call == Returned(true)
    ensures r.Alerted? ==> r.message == RecycleFailedMessage
  {
    Attempt(call, RecycleFailedMessage)
  }

  /** permanentlyDelete: failure is reported exactly when the call returned false or threw. */
  function PermanentlyDelete(call: PlatformCall): (r: Report)
    ensures r.Succeeded? <==> call == Returned(true)
    ensures r.Alerted? ==> r.message == DeleteFailedMessage
  {
    Attempt(call, DeleteFailedMessage)
  }
}
