/** The document store as the handler sees it: one operation,
    Create(index, document), that answers with an error or with nothing. */
module ElasticSearch {
  import opened Wrappers

  /** An error returned by Create. */
  datatype Error = Error(message: string)

  /** One Create call as the store received it. */
  datatype CreateCall<D> = CreateCall(index: string, document: D)

  /** A store that remembers every Create call it receives, in order, and
      answers each with the reply it was configured with (None for success). */
  class RecordingService<D> {
    var calls: seq<CreateCall<D>>
    const reply: Option<Error>

    constructor (reply: Option<Error>)
      ensures calls == [] && this.reply == reply
    {
      calls := [];
      this.reply := reply;
    }

    method Create(index: string, document: D) returns (err: Option<Error>)
      modifies this
      ensures calls == old(calls) + [CreateCall(index, document)]
      ensures err == reply
    {
      calls := calls + [CreateCall(index, document)];
      err := reply;
    }
  }
}
