/** The request and result messages an executor consumes and produces. */
module Messages {

  /** An inference request: the model to run, its batch key, the request id and the last tick it may be admitted at. */
  datatype Action = Action(modelName: string, batchKey: string, reqId: int, latest: int)

  datatype Code = Success | Error

  /** Which of the executor's four messages a result carries (their text is left out). */
  datatype Message =
    | NotRecognized   // the model is not in the executor's catalogue
    | NotLoaded       // the model is not allocated on the resource
    | NotInTime       // the request's last admission tick has passed
    | InferRan        // the request has finished running

  /** An outcome: its code, the request, the tick it was received and the tick it was observed. */
  datatype Result = Result(code: Code, action: Action, recv: int, observed: int, message: Message)
}
