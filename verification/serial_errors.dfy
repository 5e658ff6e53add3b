/** The host's error taxonomy and the two conversions that classify library
    errors into it (src-tauri/src/error.rs). */
module SerialErrors {

  /** The `std::io::ErrorKind` values the conversions distinguish, plus a
      representative of every other kind. */
  datatype IoErrorKind =
    | NotFound
    | PermissionDenied
    | TimedOut
    | BrokenPipe
    | UnexpectedEof
    | Interrupted
    | OtherIo

  /** A `std::io::Error`: its kind and its display text. */
  datatype StdIoError = StdIoError(kind: IoErrorKind, text: string)

  /** A `serialport::ErrorKind`. */
  datatype PortErrorKind = NoDevice | InvalidInput | Unknown | Io(ioKind: IoErrorKind)

  /** A `serialport::Error`: its kind and its display text. */
  datatype PortError = PortError(kind: PortErrorKind, description: string)

  /** `SerialError`, the one error type every host command reports. */
  datatype SerialError =
    | PortNotFound(path: string)
    | PortBusy(path: string)
    | InvalidHandle(handleId: nat)
    | Timeout
    | CrcMismatch
    | IoError(message: string)
    | InvalidConfig(message: string)
    | PayloadTooLarge

  /** `Result<T, SerialError>`. */
  datatype Result<+T> = Ok(value: T) | Err(error: SerialError)

  /** True of the three variants that only the protocol layer produces. */
  predicate IsProtocolError(e: SerialError)
  {
    e.InvalidHandle? || e.CrcMismatch? || e.PayloadTooLarge?
  }

  /** `From<std::io::Error> for SerialError`. */
  function FromIo(err: StdIoError): (r: SerialError)
    ensures r.Timeout? <==> err.kind == TimedOut
    ensures r.IoError? <==> err.kind != TimedOut
    ensures r.IoError? ==> r.message == err.text
  {
    match err.kind
    case TimedOut => Timeout
    case _ => IoError(err.text)
  }

  /** `From<serialport::Error> for SerialError`. */
  function FromPort(err: PortError): (r: SerialError)
    ensures r.PortNotFound? <==> err.kind == NoDevice
    ensures r.Timeout? <==> err.kind == Io(TimedOut)
    ensures r.PortBusy? <==> err.kind == Io(PermissionDenied)
    ensures r.InvalidConfig? <==> err.kind == InvalidInput
    ensures r.IoError? <==> (err.kind == Unknown || (err.kind.Io? && err.kind.ioKind !in {TimedOut, PermissionDenied}))
  {
    match err.kind
    case NoDevice => PortNotFound(err.description)
    case Io(ioKind) =>
      (match ioKind
       case TimedOut => Timeout
       case PermissionDenied => PortBusy(err.description)
       case _ => IoError(err.description))
    case InvalidInput => InvalidConfig(err.description)
    case _ => IoError(err.description)
  }

  /** Neither conversion ever yields an error the protocol layer reserves for
      itself, whatever the library error. */
  lemma ConversionsNeverYieldProtocolErrors(io: StdIoError, port: PortError)
    ensures !IsProtocolError(FromIo(io))
    ensures !IsProtocolError(FromPort(port))
  {
  }

  /** On an I/O kind other than PermissionDenied, classifying the serialport
      wrapper gives the same answer as classifying a plain I/O error with the
      same text: the two conversions agree. */
  lemma PortIoAgreesWithIo(k: IoErrorKind, text: string)
    requires k != PermissionDenied
    ensures FromPort(PortError(Io(k), text)) == FromIo(StdIoError(k, text))
  {
  }
}
