/**
 The search frontier: a bag of (arrival minutes, city, path) entries from
 which an entry with the smallest time is taken. The heap's tie-break on
 the city and path is not modelled: among entries of equal time the
 earliest pushed comes out, and the proofs rely only on its minimality.
 */
module Frontier {
  import opened Schedule

  datatype Entry = Entry(time: int, city: CityName, path: seq<FlightId>)

  /** The position of the first entry whose time is the smallest in the frontier. */
  function MinIndex(pq: seq<Entry>): (i: nat)
    requires pq != []
    ensures i < |pq|
    ensures forall j :: 0 <= j < |pq| ==> pq[i].time <= pq[j].time
    ensures forall j :: 0 <= j < i ==> pq[j].time > pq[i].time
  {
    if |pq| == 1 then 0
    else
      var k := MinIndex(pq[1..]) + 1;
      if pq[0].time <= pq[k].time then 0 else k
  }

  /** The frontier with the entry at position `i` taken out. */
  function Remove(pq: seq<Entry>, i: nat): (rest: seq<Entry>)
    requires i < |pq|
    ensures |rest| == |pq| - 1
    ensures forall e :: e in rest ==> e in pq
    ensures forall e :: e in pq && e != pq[i] ==> e in rest
    ensures multiset(rest) == multiset(pq) - multiset{pq[i]}
  {
    assert pq == pq[..i] + [pq[i]] + pq[i + 1..];
    assert forall e :: e in pq && e != pq[i] ==> e in pq[..i] || e in pq[i + 1..] by {
      forall e | e in pq && e != pq[i] ensures e in pq[..i] || e in pq[i + 1..] {
        var j :| 0 <= j < |pq| && pq[j] == e;
        if j < i { assert pq[..i][j] == e; } else { assert pq[i + 1..][j - i - 1] == e; }
      }
    }
    pq[..i] + pq[i + 1..]
  }
}
