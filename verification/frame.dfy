/**
 * The data unit both ARQ engines exchange, and the small wrappers shared by
 * every module of the model.
 */
module Frames {

  datatype Option<T> = None | Some(value: T)

  datatype Result<T, E> = Ok(value: T) | Err(error: E)

  /** One record of the stream handed to a sender (a slice of the input text). */
  type Payload = string

  /**
   * `Frame(data, seq_num, is_last, is_corrupted)`. Control frames and
   * acknowledgments carry no data (`None` in the source).
   */
  datatype Frame = Frame(data: Option<Payload>, seqNum: int, isLast: bool, isCorrupted: bool)

  /** An acknowledgment as the receiver builds it: no data, not last, never corrupted. */
  function Ack(n: int): Frame
  {
    Frame(None, n, false, false)
  }

  /** The control frame of the connection handshake (both directions build the same one). */
  function ConnectFrame(code: int): Frame
  {
    Frame(None, code, false, false)
  }

  /** A polled frame that the engines act on: present and not flagged corrupted. */
  predicate Intact(polled: Option<Frame>)
  {
    polled.Some? && !polled.value.isCorrupted
  }

  /**
   * Frame `f` is the data frame a sender builds for record `n` of `records`:
   * it carries that record, sequence number `n`, and the last-record flag.
   */
  predicate CarriesRecord(f: Frame, records: seq<Payload>, n: int)
  {
    && 0 <= n < |records|
    && f.seqNum == n
    && f.data == Some(records[n])
    && f.isLast == (n == |records| - 1)
  }

  /** The payloads of `frames`, in order. */
  function DataOf(frames: seq<Frame>): (r: seq<Option<Payload>>)
    ensures |r| == |frames|
    ensures forall k :: 0 <= k < |frames| ==> r[k] == frames[k].data
  {
    if frames == [] then [] else [frames[0].data] + DataOf(frames[1..])
  }

  /** The same frame, re-sent with a freshly rolled corruption flag. */
  function Reroll(f: Frame, corrupt: bool): Frame
  {
    f.(isCorrupted := corrupt)
  }
}
