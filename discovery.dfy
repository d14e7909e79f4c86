/** Identity selection in `_find_arduino`: every serial port that opened is
    asked ARE_U_THERE in turn, and the first one whose three-byte reply
    carries the wanted instance id at index 2 is the board. */
module Discovery {
  import opened Wire

  /** A reply that names the wanted instance. */
  predicate Identifies(reply: seq<Byte>, id: int) {
    |reply| >= 3 && reply[2] == id
  }

  /** A reply the search moves past: none at all (the read timed out), or a
      full reply naming another instance. */
  predicate Passes(reply: seq<Byte>, id: int) {
    |reply| == 0 || (|reply| >= 3 && reply[2] != id)
  }

  /** Every port before the j-th was passed over. */
  predicate PassedBefore(replies: seq<seq<Byte>>, id: int, j: int)
    requires 0 <= j <= |replies|
  {
    forall i :: 0 <= i < j ==> Passes(replies[i], id)
  }

  /** Where the search stops: at the board, at a reply too short to index
      (IndexError), or past the last port. */
  datatype Search = Found(index: nat) | ShortReply(index: nat) | NotFound

  function Shift(s: Search): Search {
    match s
    case Found(i) => Found(i + 1)
    case ShortReply(i) => ShortReply(i + 1)
    case NotFound => NotFound
  }

  /** The search loop of `_find_arduino` as a function of the replies: it
      stops at the first reply it cannot pass over, and that reply decides
      the result. */
  function Select(replies: seq<seq<Byte>>, id: int): (s: Search)
    ensures s.Found? ==> s.index < |replies| && Identifies(replies[s.index], id) && PassedBefore(replies, id, s.index)
    ensures s.ShortReply? ==>
      s.index < |replies| && 0 < |replies[s.index]| < 3 && PassedBefore(replies, id, s.index)
    ensures s.NotFound? <==> PassedBefore(replies, id, |replies|)
  {
    if replies == [] then NotFound
    else if Passes(replies[0], id) then
      var rest := Select(replies[1..], id);
      assert forall i :: 1 <= i < |replies| ==> replies[i] == replies[1..][i - 1];
      Shift(rest)
    else if |replies[0]| < 3 then ShortReply(0)
    else Found(0)
  }

  /** A reply that is not passed over ends the search right there. */
  lemma SelectAt(replies: seq<seq<Byte>>, id: int, j: nat)
    requires j < |replies| && PassedBefore(replies, id, j) && !Passes(replies[j], id)
    ensures Select(replies, id) == (if |replies[j]| < 3 then ShortReply(j) else Found(j))
  {
    var s := Select(replies, id);
    assert !s.NotFound? ==> s.index < j ==> Passes(replies[s.index], id);
  }
}
