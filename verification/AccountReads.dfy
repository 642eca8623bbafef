/** The account reads, and the thread that appends them while other threads look. */
module AccountReads {
  import opened Outcomes

  /** One account read, dated when its request was issued; no cash when the read failed. */
  datatype CashReading = CashReading(issuedAtMs: int, answeredAtMs: int, cash: Option<real>)

  /** The poller, seen from a thread that snapshots its reads. */
  class AccountPoller {
    var readings: seq<CashReading>

    constructor ()
      ensures readings == []
    {
      readings := [];
    }

    /** The poller's turn: it appends these reads, one after another. */
    method PollerTurn(appended: seq<CashReading>)
      modifies this
      ensures readings == old(readings) + appended
    {
      for i := 0 to |appended|
        invariant readings == old(readings) + appended[..i]
      {
        readings := readings + [appended[i]];
      }
    }
  }
}
