/** The key-value store as the search routine sees it: a client that must be connected,
    answers cursor-based SCAN requests with batches of keys and GET requests with the
    stored value. The network protocol itself is not modelled; the client's answers are
    fixed by the two functions it is built from. */
module Store {

  /** One SCAN reply: the cursor to continue from (0 once the iteration is complete) and
      the batch of keys it returned. */
  datatype ScanReply = ScanReply(cursor: nat, keys: seq<string>)

  /** The reply to SCAN from `cursor` when a full iteration returns `batches` in turn. The
      cursor names the next batch to return; it goes back to 0 with the last batch. A store
      with no matching key still answers the first request, with no keys and cursor 0. */
  function ReplyAt(batches: seq<seq<string>>, cursor: nat): (reply: ScanReply)
    ensures reply.cursor != 0 ==> reply.cursor == cursor + 1 < |batches|
    ensures reply.cursor == 0 ==> cursor + 1 >= |batches|
    ensures reply.keys == if cursor < |batches| then batches[cursor] else []
  {
    ScanReply(if cursor + 1 < |batches| then cursor + 1 else 0,
              if cursor < |batches| then batches[cursor] else [])
  }

  /** All keys of the batches, batch after batch, duplicates included. */
  function Concat(batches: seq<seq<string>>): seq<string>
  {
    if batches == [] then []
    else Concat(batches[..|batches| - 1]) + batches[|batches| - 1]
  }

  /** A store client. `scanBatches(pattern)` is what a full SCAN with MATCH `pattern`
      returns batch by batch; `lookup(key)` is what GET returns for `key` (including the
      representation of a missing key). */
  class Client<Raw> {
    const scanBatches: string -> seq<seq<string>>
    const lookup: string -> Raw
    ghost var connected: bool

    constructor (scanBatches: string -> seq<seq<string>>, lookup: string -> Raw)
      ensures this.scanBatches == scanBatches && this.lookup == lookup
      ensures !connected
    {
      this.scanBatches := scanBatches;
      this.lookup := lookup;
      connected := false;
    }

    /** `client.connect()`. */
    method Connect()
      modifies this
      ensures connected
    {
      connected := true;
    }

    /** `client.disconnect()`. */
    method Disconnect()
      modifies this
      ensures !connected
    {
      connected := false;
    }

    /** `client.scan(cursor, { MATCH: pattern })`. */
    method Scan(cursor: nat, pattern: string) returns (reply: ScanReply)
      requires connected
      ensures reply == ReplyAt(scanBatches(pattern), cursor)
    {
      reply := ReplyAt(scanBatches(pattern), cursor);
    }

    /** `client.get(key)`. */
    method Get(key: string) returns (value: Raw)
      requires connected
      ensures value == lookup(key)
    {
      value := lookup(key);
    }
  }

}
