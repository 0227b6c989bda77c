/**
 * The web worker that holds the word list in the browser. On `init` it
 * stores the entries it is given, each word's clues deduplicated by their
 * normalised form; on `filter` it answers with the stored entries that have
 * at least a given number of clues, echoing the request id. Any other
 * message is ignored.
 */
module ClueWorker {
  import opened Results
  import opened Text
  import opened Clues
  import opened OrderedMaps
  import opened WordList
  import opened ClueLists
  import opened ClueDedupe

  // ---------------------------------------------------------------------
  // Messages

  /** The fields of a message's `payload` the handlers read; each may be missing. */
  datatype Payload = Payload(entries: Option<seq<RawEntry>>, minClueCount: Option<int>, requestId: Option<int>)

  /** `event.data`: a `type` and a `payload`, each of which may be missing. */
  datatype Message = Message(kind: Option<string>, payload: Option<Payload>)

  /** What the worker posts back. */
  datatype Reply =
    | Initialized(entries: seq<Entry>)
    | Filtered(entries: seq<Entry>, minClueCount: int, requestId: int)

  /** Every stored entry's clues are deduplicated. */
  predicate Stored(entries: seq<Entry>) {
    forall i :: 0 <= i < |entries| ==> Deduplicated(entries[i].1)
  }

  /** `handlers.init`: the new stored entries and the reply that carries them. */
  function Init(payload: Payload): (r: (seq<Entry>, Reply))
    ensures Stored(r.0) && r.1 == Initialized(r.0)
    ensures |r.0| == |payload.entries.OrElse([])|
  {
    var stored := Dedupe(payload.entries.OrElse([]));
    (stored, Initialized(stored))
  }

  /** `handlers.filter`: the stored entries with enough clues, in stored order. */
  function Filter(entries: seq<Entry>, payload: Payload): (r: Reply)
    ensures r.Filtered?
    ensures r.minClueCount == payload.minClueCount.OrElse(1) && r.requestId == payload.requestId.OrElse(0)
    ensures payload.minClueCount.None? ==> r.minClueCount == 1
    ensures payload.requestId.None? ==> r.requestId == 0
    ensures r.entries == KeepAtLeast(entries, r.minClueCount)
    ensures forall e :: e in r.entries <==> e in entries && |e.1| >= r.minClueCount
  {
    var minClueCount := payload.minClueCount.OrElse(1);
    KeepAtLeastMembers(entries, minClueCount);
    Filtered(KeepAtLeast(entries, minClueCount), minClueCount, payload.requestId.OrElse(0))
  }

  predicate IsInit(m: Message) { m.kind == Some("init") }
  predicate IsFilter(m: Message) { m.kind == Some("filter") }

  /** `event.data ?? {}`. */
  function Data(data: Option<Message>): Message {
    data.OrElse(Message(None, None))
  }

  /**
   * `self.onmessage`: dispatch on the message type. Only `init` changes the
   * stored entries; a message of any other type gets no reply.
   */
  function Receive(entries: seq<Entry>, data: Option<Message>): (r: (seq<Entry>, Option<Reply>))
    ensures r.1.Some? <==> IsInit(Data(data)) || IsFilter(Data(data))
    ensures !IsInit(Data(data)) ==> r.0 == entries
    ensures Stored(entries) ==> Stored(r.0)
    ensures r.1.Some? && r.1.value.Initialized? ==> r.1.value.entries == r.0
    ensures r.1.Some? && r.1.value.Filtered? ==> forall i :: 0 <= i < |r.1.value.entries| ==> r.1.value.entries[i] in entries
  {
    var message := Data(data);
    var payload := message.payload.OrElse(Payload(None, None, None));
    if IsInit(message) then
      var (stored, reply) := Init(payload);
      (stored, Some(reply))
    else if IsFilter(message) then
      (entries, Some(Filter(entries, payload)))
    else
      (entries, None)
  }

  /** The worker's state and replies after handling `inbox` in order. */
  function Run(entries: seq<Entry>, inbox: seq<Option<Message>>): (r: (seq<Entry>, seq<Reply>))
    ensures Stored(entries) ==> Stored(r.0)
  {
    if inbox == [] then (entries, [])
    else
      var (state, replies) := Run(entries, inbox[..|inbox| - 1]);
      var (next, reply) := Receive(state, inbox[|inbox| - 1]);
      (next, replies + (if reply.Some? then [reply.value] else []))
  }

  /** The request ids the `filter` messages of `inbox` carry, 0 when missing. */
  function FilterIds(inbox: seq<Option<Message>>): seq<int> {
    if inbox == [] then []
    else
      var m := Data(inbox[|inbox| - 1]);
      var ids := FilterIds(inbox[..|inbox| - 1]);
      if IsFilter(m) then ids + [m.payload.OrElse(Payload(None, None, None)).requestId.OrElse(0)] else ids
  }

  /** The request ids of the `filtered` replies, in order. */
  function ReplyIds(replies: seq<Reply>): seq<int> {
    if replies == [] then []
    else
      var r := replies[|replies| - 1];
      ReplyIds(replies[..|replies| - 1]) + (if r.Filtered? then [r.requestId] else [])
  }

  lemma {:induction false} ReplyIdsAppend(a: seq<Reply>, b: seq<Reply>)
    ensures ReplyIds(a + b) == ReplyIds(a) + ReplyIds(b)
    decreases |b|
  {
    if b == [] {
      assert a + b == a;
    } else {
      var b' := b[..|b| - 1];
      assert (a + b)[..|a + b| - 1] == a + b';
      assert (a + b)[|a + b| - 1] == b[|b| - 1];
      ReplyIdsAppend(a, b');
    }
  }

  /** Each `filter` message gets one `filtered` reply, in order, carrying its request id. */
  lemma {:induction false} RunEchoesIds(entries: seq<Entry>, inbox: seq<Option<Message>>)
    ensures ReplyIds(Run(entries, inbox).1) == FilterIds(inbox)
  {
    if inbox != [] {
      var init := inbox[..|inbox| - 1];
      RunEchoesIds(entries, init);
      var (state, replies) := Run(entries, init);
      var (next, reply) := Receive(state, inbox[|inbox| - 1]);
      ReplyIdsAppend(replies, if reply.Some? then [reply.value] else []);
    }
  }

  /** After a last `init`, the stored entries are that message's entries, deduplicated. */
  lemma {:induction false} RunLastInit(entries: seq<Entry>, before: seq<Option<Message>>, m: Message, after: seq<Option<Message>>)
    requires IsInit(m)
    requires forall i :: 0 <= i < |after| ==> !IsInit(Data(after[i]))
    ensures Run(entries, before + [Some(m)] + after).0 == Dedupe(m.payload.OrElse(Payload(None, None, None)).entries.OrElse([]))
    decreases |after|
  {
    var inbox := before + [Some(m)] + after;
    if after == [] {
      assert inbox[..|inbox| - 1] == before;
    } else {
      var after' := after[..|after| - 1];
      assert inbox[..|inbox| - 1] == before + [Some(m)] + after';
      assert inbox[|inbox| - 1] == after[|after| - 1];
      RunLastInit(entries, before, m, after');
    }
  }
}
