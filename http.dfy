/** The parts of a request and a response the two API routes look at. */
module Http {
  import opened Errors
  import Fs

  /** A field of a parsed JSON body; `Undefined` when the field is absent. */
  datatype Value =
    | Undefined
    | Null
    | Bool(b: bool)
    | Num(n: real)
    | Str(s: string)
    | Composite   // an array or an object

  /** JavaScript's `!v`: the falsy values a JSON body can carry. */
  predicate Falsy(v: Value)
    ensures v.Str? ==> (Falsy(v) <==> v.s == "")
    ensures v.Num? ==> (Falsy(v) <==> v.n == 0.0)
    ensures v.Bool? ==> (Falsy(v) <==> !v.b)
    ensures v == Composite ==> !Falsy(v)
    ensures v == Undefined || v == Null ==> Falsy(v)
  {
    v == Undefined || v == Null || v == Bool(false) || v == Num(0.0) || v == Str("")
  }

  /** The JSON payload of `NextResponse.json`. */
  datatype Body =
    | Tree(nodes: seq<Fs.FileNode>)  // the listing itself
    | Success                        // `{ success: true }`
    | Content(content: string)       // `{ content }`
    | Failure(error: string)         // `{ error }`

  /** A response: the status (200 unless given) and its payload. */
  datatype Response = Response(status: int, body: Body)

  /** What the routes answer once the file operation has run: `{ success: true }`, or 500 with the thrown message. */
  function Respond(outcome: Outcome): (r: Response)
    ensures r.status == 200 <==> outcome == Done
    ensures r.status == 200 ==> r.body == Success
    ensures r.status != 200 ==> r.status == 500 && r.body == Failure(Message(outcome.error))
  {
    match outcome
    case Done => Response(200, Success)
    case Failed(e) => Response(500, Failure(Message(e)))
  }

  /** 500 with the message of a thrown error. */
  function Thrown(e: Error): (r: Response)
    ensures r == Respond(Failed(e))
    ensures r.status == 500 && r.body.Failure? && r.body.error != ""
  {
    Response(500, Failure(Message(e)))
  }
}
