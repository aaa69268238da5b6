/**
 * ros_exec: the SSH command channel, seen by the parsers as an oracle.
 * Connecting, authenticating and streaming the reply are the device side's
 * business; what one poll sees of them is, per command string, either the
 * raw output or the fault that made the call throw.
 */
module Channel {
  import opened Wrappers
  import opened Text

  /** Why a command could not be run: the three exceptions ros_exec and ssh_connect raise. */
  datatype ChannelFault = ConnectFailed | AuthFailed | ExecFailed

  /** What the device side yields for one command. */
  datatype Reply = Output(text: string) | Failed(fault: ChannelFault)

  /** The command channel as one poll sees it: the reply to each command string. */
  type Device = string -> Reply

  /** The message of the exception raised for `fault` while running `cmd`. */
  function FaultMessage(fault: ChannelFault, cmd: string): (msg: string)
    ensures msg != ""
  {
    match fault
    case ConnectFailed => "SSH connect failed"
    case AuthFailed => "SSH auth failed"
    case ExecFailed => "SSH exec failed: " + cmd
  }

  /**
   * ros_exec($cmd): the command's output with surrounding whitespace
   * trimmed, or an exception carrying a non-empty message.
   */
  function RosExec(device: Device, cmd: string): (r: Result<string>)
    ensures r.Ok? <==> device(cmd).Output?
    ensures r.Ok? ==> r.value == [] || (!IsTrimChar(r.value[0]) && !IsTrimChar(r.value[|r.value| - 1]))
    ensures r.Ok? ==> PaddedIn(device(cmd).text, r.value)
    ensures r.Err? ==> r.error != ""
  {
    match device(cmd)
    case Output(text) => Ok(Trim(text))
    case Failed(fault) => Err(FaultMessage(fault, cmd))
  }
}
