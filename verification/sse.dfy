/**
  The server-sent-events registry both submission servers keep: one queue
  per connected dashboard, a broadcast that puts a frame on every queue,
  and the count of connected dashboards that is announced whenever a
  dashboard comes or goes.
 */
module Sse {
  import opened Opt
  import opened Text

  /** A connected dashboard's queue; `id` stands for the queue object's identity. */
  datatype Queue = Queue(id: nat, pending: seq<string>)

  /** The registry; `next` is an id no queue has been given yet. */
  datatype Hub = Hub(queues: seq<Queue>, next: nat)

  const Empty := Hub([], 0)

  predicate Valid(h: Hub) {
    && (forall i :: 0 <= i < |h.queues| ==> h.queues[i].id < h.next)
    && (forall i, j :: 0 <= i < j < |h.queues| ==> h.queues[i].id != h.queues[j].id)
  }

  function Ids(h: Hub): seq<nat> {
    seq(|h.queues|, i requires 0 <= i < |h.queues| => h.queues[i].id)
  }

  predicate Connected(h: Hub, id: nat) {
    exists i :: 0 <= i < |h.queues| && h.queues[i].id == id
  }

  /** The `count` property: how many dashboards are connected. */
  function Count(h: Hub): nat {
    |h.queues|
  }

  /** `connect`: a new empty queue goes to the end of the list. */
  function Connect(h: Hub): (r: (Hub, nat))
    requires Valid(h)
    ensures Valid(r.0) && Count(r.0) == Count(h) + 1
    ensures !Connected(h, r.1) && Connected(r.0, r.1)
    ensures r.0.queues == h.queues + [Queue(r.1, [])]
  {
    var qs := h.queues + [Queue(h.next, [])];
    assert qs[|h.queues|].id == h.next;
    assert forall i :: 0 <= i < |h.queues| ==> qs[i] == h.queues[i];
    (Hub(qs, h.next + 1), h.next)
  }

  /** The position of the first queue with the id, if any. */
  function Find(qs: seq<Queue>, id: nat): (k: Option<nat>)
    ensures k.Some? ==> k.value < |qs| && qs[k.value].id == id
                        && forall i :: 0 <= i < k.value ==> qs[i].id != id
    ensures k.None? ==> forall i :: 0 <= i < |qs| ==> qs[i].id != id
  {
    if qs == [] then None
    else if qs[0].id == id then Some(0)
    else match Find(qs[1..], id)
      case None => None
      case Some(k) => Some(k + 1)
  }

  /** `disconnect`: the first queue with the id leaves; an unknown id changes nothing. */
  function Disconnect(h: Hub, id: nat): (r: Hub)
    ensures !Connected(h, id) ==> r == h
    ensures Connected(h, id) ==> Count(r) == Count(h) - 1
    ensures r.next == h.next
  {
    match Find(h.queues, id)
      case None => h
      case Some(k) => h.(queues := h.queues[..k] + h.queues[k + 1..])
  }

  /** The queues with position `k` taken out. */
  lemma RemovedAt(qs: seq<Queue>, k: nat)
    requires k < |qs|
    ensures var r := qs[..k] + qs[k + 1..];
            |r| == |qs| - 1 && forall i :: 0 <= i < |r| ==> r[i] == qs[if i < k then i else i + 1]
  {
  }

  lemma RemovedDistinct(qs: seq<Queue>, k: nat)
    requires k < |qs|
    requires forall i, j :: 0 <= i < j < |qs| ==> qs[i].id != qs[j].id
    ensures var r := qs[..k] + qs[k + 1..];
            forall i, j :: 0 <= i < j < |r| ==> r[i].id != r[j].id
  {
    var r := qs[..k] + qs[k + 1..];
    RemovedAt(qs, k);
    forall i, j | 0 <= i < j < |r|
      ensures r[i].id != r[j].id
    {
      var i', j' := if i < k then i else i + 1, if j < k then j else j + 1;
      assert r[i] == qs[i'] && r[j] == qs[j'] && i' < j';
    }
  }

  /** Taking a queue out keeps the ids below `next` and distinct. */
  lemma RemovedValid(h: Hub, k: nat)
    requires Valid(h) && k < |h.queues|
    ensures Valid(h.(queues := h.queues[..k] + h.queues[k + 1..]))
  {
    var r := h.queues[..k] + h.queues[k + 1..];
    RemovedAt(h.queues, k);
    RemovedDistinct(h.queues, k);
    forall i | 0 <= i < |r| ensures r[i].id < h.next {
      assert r[i] == h.queues[if i < k then i else i + 1];
    }
  }

  /** With distinct ids, the id of the queue taken out is nowhere else. */
  lemma RemovedDropsId(qs: seq<Queue>, k: nat)
    requires k < |qs|
    requires forall i, j :: 0 <= i < j < |qs| ==> qs[i].id != qs[j].id
    ensures var r := qs[..k] + qs[k + 1..];
            forall i :: 0 <= i < |r| ==> r[i].id != qs[k].id
  {
    var r := qs[..k] + qs[k + 1..];
    RemovedAt(qs, k);
    forall i | 0 <= i < |r| ensures r[i].id != qs[k].id {
      var j := if i < k then i else i + 1;
      assert r[i] == qs[j] && j != k;
    }
  }

  /** Every queue other than the one taken out stays. */
  lemma RemovedKeepsOthers(qs: seq<Queue>, k: nat)
    requires k < |qs|
    ensures var r := qs[..k] + qs[k + 1..];
            forall q :: q in qs && q.id != qs[k].id ==> q in r
  {
    var r := qs[..k] + qs[k + 1..];
    RemovedAt(qs, k);
    forall q | q in qs && q.id != qs[k].id ensures q in r {
      var j :| 0 <= j < |qs| && qs[j] == q;
      assert r[if j < k then j else j - 1] == q;
    }
  }

  /** Disconnecting keeps the registry valid, drops the id, and keeps every other queue in order. */
  lemma DisconnectValid(h: Hub, id: nat)
    requires Valid(h)
    ensures var r := Disconnect(h, id);
            Valid(r) && !Connected(r, id)
            && (forall q :: q in h.queues && q.id != id ==> q in r.queues)
            && IsSubsequence(r.queues, h.queues)
  {
    match Find(h.queues, id)
      case None =>
        SubsequenceRefl(h.queues);
      case Some(k) =>
        RemovedValid(h, k);
        RemovedDropsId(h.queues, k);
        RemovedKeepsOthers(h.queues, k);
        SubsequenceDrop(h.queues, k);
  }

  /** Connecting then disconnecting the new queue gives back the same queues. */
  lemma DisconnectUndoesConnect(h: Hub)
    requires Valid(h)
    ensures var (c, id) := Connect(h);
            Disconnect(c, id).queues == h.queues
  {
    var (c, id) := Connect(h);
    var k := Find(c.queues, id);
    assert k == Some(|h.queues|);
    assert c.queues[..|h.queues|] == h.queues;
  }

  // ----------------------------------------------------------------- frames

  /** The text of one event: `event: …`, `data: …`, and a blank line. */
  function Frame(event: string, data: string): string {
    "event: " + event + "\ndata: " + data + "\n\n"
  }

  /** Reads a frame back into its event name and data; `None` when malformed. */
  function ParseFrame(s: string): (r: Option<(string, string)>)
    ensures r.Some? ==> '\n' !in r.value.0
  {
    Unframe(s, "event: ", "\ndata: ", "\n\n")
  }

  /** Splits `a + e + b + d + c` at the first line break after `a`; `b` starts with that break. */
  function Unframe(s: string, a: string, b: string, c: string): (r: Option<(string, string)>)
    requires b != [] && b[0] == '\n'
    ensures r.Some? ==> '\n' !in r.value.0
  {
    if |s| < |a| + |c| || !StartsWith(s, a) || !EndsWith(s, c) then None
    else
      var body := s[|a|..|s| - |c|];
      var nl := IndexOf(body, '\n');
      if nl < 0 || !StartsWith(body[nl..], b) then None
      else Some((body[..nl], body[nl + |b|..]))
  }

  lemma UnframeFrame(a: string, b: string, c: string, e: string, d: string)
    requires b != [] && b[0] == '\n' && '\n' !in e
    ensures Unframe(a + e + b + d + c, a, b, c) == Some((e, d))
  {
    var s := a + e + b + d + c;
    var body := e + b + d;
    assert |a| + |c| <= |s| && StartsWith(s, a) && EndsWith(s, c) && s[|a|..|s| - |c|] == body by {
      assert s == a + body + c;
      assert s[..|a|] == a && s[|s| - |c|..] == c;
    }
    assert IndexOf(body, '\n') == |e| by {
      assert body[|e|] == '\n' && body[..|e|] == e;
      IndexOfUnique(body, '\n', |e|);
    }
    assert StartsWith(body[|e|..], b) && body[..|e|] == e && body[|e| + |b|..] == d by {
      assert body[|e|..] == b + d;
      assert body[|e|..][..|b|] == b;
    }
    UnframeBody(s, a, b, c, body, e, d);
  }

  /** `Unframe` in terms of the pieces it cuts out. */
  lemma UnframeBody(s: string, a: string, b: string, c: string, body: string, e: string, d: string)
    requires b != [] && b[0] == '\n'
    requires |a| + |c| <= |s| && StartsWith(s, a) && EndsWith(s, c) && s[|a|..|s| - |c|] == body
    requires IndexOf(body, '\n') == |e| && StartsWith(body[|e|..], b)
    requires body[..|e|] == e && body[|e| + |b|..] == d
    ensures Unframe(s, a, b, c) == Some((e, d))
  {
  }

  /** A frame whose event name has no line break reads back as what was sent. */
  lemma ParseFrameRoundTrip(event: string, data: string)
    requires '\n' !in event
    ensures ParseFrame(Frame(event, data)) == Some((event, data))
  {
    UnframeFrame("event: ", "\ndata: ", "\n\n", event, data);
  }

  /** `broadcast`: the frame is put on every queue; queues never refuse it. */
  function Broadcast(h: Hub, event: string, data: string): (r: Hub)
    ensures Ids(r) == Ids(h) && r.next == h.next
    ensures forall i :: 0 <= i < |h.queues| ==>
              r.queues[i].pending == h.queues[i].pending + [Frame(event, data)]
  {
    var f := Frame(event, data);
    h.(queues := seq(|h.queues|, i requires 0 <= i < |h.queues| => h.queues[i].(pending := h.queues[i].pending + [f])))
  }

  lemma BroadcastValid(h: Hub, event: string, data: string)
    requires Valid(h)
    ensures Valid(Broadcast(h, event, data))
  {
    var r := Broadcast(h, event, data);
    assert forall i :: 0 <= i < |h.queues| ==> r.queues[i].id == Ids(r)[i] == Ids(h)[i] == h.queues[i].id;
  }

  // --------------------------------------------------------- event streams

  /** A dashboard that opens the event stream. */
  datatype Opened = Opened(hub: Hub, id: nat, greeting: string)

  /**
    `handle_events` on arrival: connect, write the count straight to the new
    dashboard, then broadcast the count to everyone, the new dashboard included.
   */
  function Open(h: Hub): (r: Opened)
    requires Valid(h)
    ensures Valid(r.hub) && Count(r.hub) == Count(h) + 1
    ensures r.greeting == Frame("count", NatToString(Count(h) + 1))
    ensures Connected(r.hub, r.id) && !Connected(h, r.id)
  {
    var (c, id) := Connect(h);
    BroadcastValid(c, "count", NatToString(Count(c)));
    var b := Broadcast(c, "count", NatToString(Count(c)));
    assert Ids(b)[|h.queues|] == id;
    Opened(b, id, Frame("count", NatToString(Count(c))))
  }

  /** Broadcasting neither connects nor disconnects anyone. */
  lemma BroadcastConnected(h: Hub, event: string, data: string, id: nat)
    ensures Connected(Broadcast(h, event, data), id) <==> Connected(h, id)
  {
    var r := Broadcast(h, event, data);
    assert forall i :: 0 <= i < |r.queues| ==> r.queues[i].id == Ids(r)[i] == Ids(h)[i] == h.queues[i].id;
  }

  /** `handle_events` on leaving: disconnect, then broadcast the count to those left. */
  function Close(h: Hub, id: nat): (r: Hub)
    requires Valid(h)
    ensures Valid(r) && !Connected(r, id)
    ensures Connected(h, id) ==> Count(r) == Count(h) - 1
  {
    DisconnectValid(h, id);
    var d := Disconnect(h, id);
    BroadcastValid(d, "count", NatToString(Count(d)));
    BroadcastConnected(d, "count", NatToString(Count(d)), id);
    Broadcast(d, "count", NatToString(Count(d)))
  }

  /**
    Every dashboard already connected hears the new count once when another
    arrives, and the newcomer's own queue starts with that count too.
   */
  lemma OpenAnnounces(h: Hub)
    requires Valid(h)
    ensures var r := Open(h);
            var f := Frame("count", NatToString(Count(h) + 1));
            && r.hub.queues[|h.queues|] == Queue(r.id, [f])
            && forall i :: 0 <= i < |h.queues| ==> r.hub.queues[i] == h.queues[i].(pending := h.queues[i].pending + [f])
  {
    var (c, id) := Connect(h);
    assert Ids(c)[|h.queues|] == id;
  }

  /** A dashboard that comes and goes leaves the count where it was. */
  lemma OpenCloseCount(h: Hub)
    requires Valid(h)
    ensures var r := Open(h);
            Count(Close(r.hub, r.id)) == Count(h)
  {
  }
}
