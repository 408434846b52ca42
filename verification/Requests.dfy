/** What a trace records of its HTTP request (model/trace.go). */
module Requests {

  datatype Http = Http(verb: string, uri: string, route: string, host: string, status: int, responseBytes: int)
}
