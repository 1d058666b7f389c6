/** A recorded request with its response. */
module Entries {
  import opened Options

  datatype MockRequest = MockRequest(httpMethod: string, uri: string, body: string)

  datatype MockResponse = MockResponse(status: nat, headers: map<string, string>, body: string, latencyMs: nat)

  datatype MockEntry = MockEntry(
    id: string, timestamp: string, request: MockRequest, response: MockResponse,
    serviceId: Option<string>, tenant: string, workloadClass: string)
}
