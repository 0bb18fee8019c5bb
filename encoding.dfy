/**
 * The encoder of the `encoding` package: so far it only passes an earlier error
 * through and otherwise reports success, without writing anything.
 */
module Encoding {
  import opened Wrappers
  import Writers
  import Bibliography

  class Encoder {
    const writer: Writers.Sink
    var err: Option<Writers.Error>

    /** `NewEncoder(writer)`: keeps the stream, starts with no error, writes nothing. */
    constructor (writer: Writers.Sink)
      ensures this.writer == writer && err == None
      ensures unchanged(writer)
    {
      this.writer := writer;
      err := None;
    }

    /**
     * `Encode(entry)`: the stored error, which is nil unless it was set some other
     * way. Nothing is written and the encoder is not changed.
     */
    method Encode(entry: Bibliography.Entry) returns (r: Option<Writers.Error>)
      ensures r == err
    {
      r := err;
      if r.Some? {
        return;
      }
    }
  }
}
