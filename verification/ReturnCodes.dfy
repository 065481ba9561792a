/** What an NVML call's return code makes of its result. */
module ReturnCodes {

  datatype Return =
    | Success | NotSupported | FunctionNotFound | GpuIsLost | CorruptedInforom | Timeout | OtherError

  datatype Outcome = Observed | NotObserved | FunctionMissing | GpuLost | Unexpected

  function OutcomeOf(ret: Return): Outcome {
    match ret
    case Success => Observed
    case NotSupported => NotObserved
    case FunctionNotFound => FunctionMissing
    case GpuIsLost => GpuLost
    case _ => Unexpected
  }
}
