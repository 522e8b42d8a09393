/** The message the fleet publishes for every order, and the contestant's decoded answer inside it. */
module Events {
  import opened Prelude

  /** The contestant's answer as the validator decodes it; an absent JSON field decodes to zero or "". */
  datatype TargetResponse = TargetResponse(
    orderID: string,
    kind: string,
    side: string,
    orderedQty: int,
    filledQty: int,
    price: real,
    executionPrice: real,
    status: string)

  /** `body` is the decoded response body: None when it is not valid JSON for a TargetResponse. */
  datatype OrderEvent = OrderEvent(
    runID: string,
    orderID: string,
    submissionID: string,
    kind: string,
    timestamp: int,
    sentAt: int,
    ackAt: int,
    latencyMs: int,
    statusCode: int,
    isSuccessful: bool,
    body: Option<TargetResponse>,
    expectedStatus: int)
}
