/**
  The bounded ring of network records and its in-flight aliases
  (packages/browser-core/src/cdp-helper.ts). A record is one object: the ring and
  the in-flight map hold the same one, and events update it in place. Text
  sanitizing is not modelled; records keep the texts they are given.
 */
module NetworkDiagnostics {
  import opened Wrappers
  import opened PageBudget

  const MAX_ENTRIES: nat := 200
  const MAX_NETWORK_PAGE_BYTES: nat := 48 * 1024

  // -------------------------------------------------------------------- records

  datatype Outcome = Pending | Redirect | Success | HttpError | Failure

  datatype Response = Response(status: Option<int>, statusText: string, mimeType: string)

  /** What a page shows of a record. */
  datatype EntryView = EntryView(
    sequence: nat,
    url: string,
    resourceType: string,
    outcome: Outcome,
    status: Option<int>,
    statusText: string,
    mimeType: string,
    failureReason: string,
    durationMs: Option<nat>)

  /** Seconds between two monotonic timestamps, as the nearest whole milliseconds, never negative. */
  function DurationMs(from: real, to: real): (ms: nat)
    ensures to <= from ==> ms == 0
    ensures to >= from ==> -0.5 <= ms as real - (to - from) * 1000.0 <= 0.5
  {
    var ms := ((to - from) * 1000.0 + 0.5).Floor;
    if ms < 0 then 0 else ms
  }

  /** A record after a response: fields the response does not carry stay. */
  function Answered(v: EntryView, response: Response): EntryView {
    v.(status := response.status.OrElse(v.status),
       statusText := if response.statusText != "" then response.statusText else v.statusText,
       mimeType := if response.mimeType != "" then response.mimeType else v.mimeType)
  }

  class Entry {
    const requestId: string
    const startedAt: real
    const loaderId: Option<string>
    const sequence: nat
    const url: string
    var resourceType: string
    var outcome: Outcome
    var status: Option<int>
    var statusText: string
    var mimeType: string
    var failureReason: string
    var durationMs: Option<nat>

    constructor (requestId: string, startedAt: real, loaderId: Option<string>, sequence: nat, url: string, resourceType: string)
      ensures this.requestId == requestId && this.startedAt == startedAt && this.loaderId == loaderId && this.sequence == sequence
      ensures View() == EntryView(sequence, url, resourceType, Pending, None, "", "", "", None)
    {
      this.requestId, this.startedAt, this.loaderId, this.sequence := requestId, startedAt, loaderId, sequence;
      this.url, this.resourceType, outcome, status := url, resourceType, Pending, None;
      statusText, mimeType, failureReason, durationMs := "", "", "", None;
    }

    function View(): EntryView
      reads this
    {
      EntryView(sequence, url, resourceType, outcome, status, statusText, mimeType, failureReason, durationMs)
    }

    method ApplyResponse(response: Response)
      modifies this`status, this`statusText, this`mimeType
      ensures View() == Answered(old(View()), response)
    {
      if response.status.Some? {
        status := response.status;
      }
      if response.statusText != "" {
        statusText := response.statusText;
      }
      if response.mimeType != "" {
        mimeType := response.mimeType;
      }
    }
  }

  // --------------------------------------------------------------------- events

  datatype Event =
    | WillBeSent(id: string, frameId: string, sentAt: real, redirect: Option<Response>, loaderId: Option<string>, url: string, resourceType: string)
    | Received(id: string, response: Response, resourceType: string)
    | Finished(id: string, at: Option<real>)
    | Failed(id: string, reason: string, at: Option<real>)
    | MainNavigated(mainFrame: Option<string>, loader: Option<string>)
    | MainDetached
    | Recovered
    | ListenerRemoved
    | MainFrameKnown(frame: string)

  /** The records of one document. */
  function OfLoader(buffer: seq<Entry>, loader: string): (r: seq<Entry>) {
    if buffer == [] then []
    else if buffer[0].loaderId == Some(loader) then [buffer[0]] + OfLoader(buffer[1..], loader)
    else OfLoader(buffer[1..], loader)
  }

  /** Strictly increasing sequence numbers, none above the last one issued. */
  ghost predicate Ordered(buffer: seq<Entry>, last: nat) {
    && (forall i, j :: 0 <= i < j < |buffer| ==> buffer[i].sequence < buffer[j].sequence)
    && forall i :: 0 <= i < |buffer| ==> buffer[i].sequence <= last
  }

  /** What is in flight is, object for object, an unfinished record of the ring. */
  ghost predicate Tracked(requests: map<string, Entry>, buffer: seq<Entry>)
    reads buffer
  {
    && "" !in requests
    && forall id :: id in requests ==>
         && requests[id] in buffer && requests[id].requestId == id
         && requests[id].durationMs.None? && (requests[id].outcome == Pending || requests[id].outcome == HttpError)
  }

  lemma {:induction false} OfLoaderSelects(buffer: seq<Entry>, loader: string)
    ensures var r := OfLoader(buffer, loader);
            && |r| <= |buffer|
            && (forall j :: 0 <= j < |r| ==> r[j] in buffer && r[j].loaderId == Some(loader))
            && forall j :: 0 <= j < |buffer| && buffer[j].loaderId == Some(loader) ==> buffer[j] in r
  {
    if buffer != [] {
      OfLoaderSelects(buffer[1..], loader);
      assert buffer == [buffer[0]] + buffer[1..];
    }
  }

  lemma ConsOrdered(e: Entry, rest: seq<Entry>, last: nat)
    requires Ordered(rest, last) && e.sequence <= last
    requires forall j :: 0 <= j < |rest| ==> e.sequence < rest[j].sequence
    ensures Ordered([e] + rest, last)
  {
  }

  lemma TailOrdered(buffer: seq<Entry>, last: nat)
    requires Ordered(buffer, last) && buffer != []
    ensures Ordered(buffer[1..], last) && buffer[0].sequence <= last
    ensures forall e :: e in buffer[1..] ==> buffer[0].sequence < e.sequence
  {
  }

  lemma {:induction false} OfLoaderOrdered(buffer: seq<Entry>, loader: string, last: nat)
    requires Ordered(buffer, last)
    ensures Ordered(OfLoader(buffer, loader), last)
  {
    hide Ordered;
    if buffer == [] {
      EmptyOrdered(last);
    } else {
      TailOrdered(buffer, last);
      OfLoaderOrdered(buffer[1..], loader, last);
      OfLoaderSelects(buffer[1..], loader);
      ConsOrdered(buffer[0], OfLoader(buffer[1..], loader), last);
    }
  }

  lemma EmptyOrdered(last: nat)
    ensures Ordered([], last)
  {
  }

  /** The ring after a record is pushed: at 200 the oldest goes. */
  function Pushed(buffer: seq<Entry>, entry: Entry): seq<Entry> {
    (if |buffer| < MAX_ENTRIES then buffer else buffer[1..]) + [entry]
  }

  /** The in-flight map after the ring drops its oldest record to stay within bounds. */
  function Evicted(requests: map<string, Entry>, buffer: seq<Entry>): map<string, Entry> {
    if |buffer| >= MAX_ENTRIES && buffer[0].requestId in requests && requests[buffer[0].requestId] == buffer[0]
    then requests - {buffer[0].requestId}
    else requests
  }

  /** A push adds the record at the end and keeps the 200 newest. */
  lemma PushedExactly(buffer: seq<Entry>, entry: Entry)
    requires |buffer| <= MAX_ENTRIES
    ensures var r := Pushed(buffer, entry);
            && |r| == (if |buffer| < MAX_ENTRIES then |buffer| + 1 else MAX_ENTRIES)
            && r == (buffer + [entry])[|buffer| + 1 - |r|..]
  {
  }

  /** And what is in flight stays so exactly if the ring still holds it. */
  lemma EvictedExactly(requests: map<string, Entry>, buffer: seq<Entry>, last: nat, entry: Entry)
    requires Tracked(requests, buffer) && Ordered(buffer, last) && entry.sequence > last && |buffer| <= MAX_ENTRIES
    ensures var flying := requests[entry.requestId := entry];
            var r := Evicted(flying, buffer);
            && (forall id :: id in r <==> id in flying && flying[id] in Pushed(buffer, entry))
            && forall id :: id in r ==> r[id] == flying[id]
  {
    var flying := requests[entry.requestId := entry];
    var pushed := Pushed(buffer, entry);
    assert pushed[|pushed| - 1] == entry;
    forall id | id in requests && id != entry.requestId
      ensures requests[id] in pushed <==> !(|buffer| >= MAX_ENTRIES && requests[id] == buffer[0])
    {
      var k :| 0 <= k < |buffer| && buffer[k] == requests[id];
      if |buffer| >= MAX_ENTRIES {
        assert k > 0 ==> pushed[k - 1] == buffer[k];
      } else {
        assert pushed[k] == buffer[k];
      }
    }
  }

  lemma PushedOrdered(buffer: seq<Entry>, last: nat, entry: Entry)
    requires Ordered(buffer, last) && entry.sequence == last + 1
    ensures Ordered(Pushed(buffer, entry), last + 1)
  {
  }

  lemma PushedMembers(buffer: seq<Entry>, entry: Entry)
    ensures forall e :: e in Pushed(buffer, entry) ==> e in buffer || e == entry
  {
  }

  lemma PushedTracked(requests: map<string, Entry>, buffer: seq<Entry>, entry: Entry)
    requires Tracked(requests, buffer) && entry.requestId != "" && entry.durationMs.None? && entry.outcome == Pending
    ensures Tracked(Evicted(requests[entry.requestId := entry], buffer), Pushed(buffer, entry))
  {
    var flying := requests[entry.requestId := entry];
    forall id | id in Evicted(flying, buffer)
      ensures flying[id] in Pushed(buffer, entry)
    {
      if flying[id] != entry {
        var k :| 0 <= k < |buffer| && buffer[k] == flying[id];
        if |buffer| >= MAX_ENTRIES {
          assert k > 0;
          assert Pushed(buffer, entry)[k - 1] == buffer[k];
        } else {
          assert Pushed(buffer, entry)[k] == buffer[k];
        }
      } else {
        assert Pushed(buffer, entry)[|Pushed(buffer, entry)| - 1] == entry;
      }
    }
  }

  // ----------------------------------------------------------------------- pages

  datatype Query = Query(
    limit: Option<real>,
    statuses: set<string>,
    resourceTypes: set<string>,
    filter: string,
    afterSequence: Option<real>)

  datatype Page = Page(entries: seq<EntryView>, lastSequence: nat, totalEntries: nat, truncated: bool)

  function Limit(q: Query): (n: nat)
    ensures 1 <= n <= MAX_ENTRIES
    ensures q.limit.None? ==> n == 100
    ensures q.limit.Some? && 1.0 <= q.limit.value < MAX_ENTRIES as real ==> n as real <= q.limit.value < (n + 1) as real
    ensures q.limit.Some? && q.limit.value < 1.0 ==> n == 1
    ensures q.limit.Some? && q.limit.value >= MAX_ENTRIES as real ==> n == MAX_ENTRIES
  {
    var n := q.limit.GetOr(100.0).Floor;
    var capped := if n < MAX_ENTRIES then n else MAX_ENTRIES;
    if capped > 1 then capped else 1
  }

  function After(q: Query): (n: nat)
    ensures q.afterSequence.None? || q.afterSequence.value < 0.0 ==> n == 0
    ensures q.afterSequence.Some? && q.afterSequence.value >= 0.0 ==> n as real <= q.afterSequence.value < (n + 1) as real
  {
    var n := q.afterSequence.GetOr(0.0).Floor;
    if n > 0 then n else 0
  }

  /** The whole text of a number's hundreds, as in "4xx". */
  function StatusClass(status: int): string {
    Decimal(status / 100) + "xx"
  }

  function Decimal(n: int): string
    decreases if n < 0 then 1 else 0, if n < 0 then -n else n
  {
    if n < 0 then "-" + Decimal(-n)
    else if n < 10 then [('0' as int + n) as char]
    else Decimal(n / 10) + [('0' as int + n % 10) as char]
  }

  /** Statuses are filtered by their class, as in "4xx". */
  lemma StatusClassIsHundreds(status: int)
    requires 100 <= status < 1000
    ensures StatusClass(status) == [('0' as int + status / 100) as char, 'x', 'x']
  {
  }

  predicate StatusMatches(v: EntryView, statuses: set<string>) {
    || statuses == {}
    || ("pending" in statuses && v.outcome == Pending)
    || ("failed" in statuses && v.outcome == Failure)
    || ("success" in statuses && v.outcome == Success)
    || (v.status.Some? && StatusClass(v.status.value) in statuses)
  }

  predicate Contains(text: string, part: string) {
    exists i :: 0 <= i <= |text| && part <= text[i..]
  }

  predicate Matches(v: EntryView, q: Query) {
    && v.sequence > After(q)
    && StatusMatches(v, q.statuses)
    && (q.resourceTypes == {} || v.resourceType in q.resourceTypes)
    && (q.filter == "" || Contains(v.url, q.filter))
  }

  function Views(buffer: seq<Entry>): (r: seq<EntryView>)
    reads buffer
    ensures |r| == |buffer| && forall i :: 0 <= i < |r| ==> r[i] == buffer[i].View()
  {
    if buffer == [] then [] else Views(buffer[..|buffer| - 1]) + [buffer[|buffer| - 1].View()]
  }

  function Selected(views: seq<EntryView>, q: Query): (r: seq<EntryView>)
    ensures forall v :: v in r <==> v in views && Matches(v, q)
  {
    if views == [] then []
    else
      var last := views[|views| - 1];
      assert views == views[..|views| - 1] + [last];
      Selected(views[..|views| - 1], q) + if Matches(last, q) then [last] else []
  }

  /** Selection keeps the order of the ring. */
  lemma {:induction false} SelectedInOrder(views: seq<EntryView>, q: Query)
    requires forall i, j :: 0 <= i < j < |views| ==> views[i].sequence < views[j].sequence
    ensures var r := Selected(views, q);
            forall i, j :: 0 <= i < j < |r| ==> r[i].sequence < r[j].sequence
  {
    if views != [] {
      var front, last := views[..|views| - 1], views[|views| - 1];
      SelectedInOrder(front, q);
      assert forall v :: v in front ==> v.sequence < last.sequence;
      assert forall i :: 0 <= i < |Selected(front, q)| ==> Selected(front, q)[i] in front;
    }
  }

  function Sizes(views: seq<EntryView>, size: EntryView -> nat): (r: seq<nat>)
    ensures |r| == |views|
  {
    if views == [] then [] else Sizes(views[..|views| - 1], size) + [size(views[|views| - 1])]
  }

  /** Bytes of a page showing these records out of `total`: 76 of member names and punctuation. */
  function NetworkPageBytes(views: seq<EntryView>, size: EntryView -> nat, lastSequence: nat, total: nat): nat {
    76 + ArrayBytes(Sizes(views, size)) + Digits(lastSequence) + Digits(total) + Digits(|views|)
    + (if |views| < total then 4 else 5)
  }

  predicate NetworkPageFits(views: seq<EntryView>, size: EntryView -> nat, lastSequence: nat, total: nat) {
    NetworkPageBytes(views, size, lastSequence, total) <= MAX_NETWORK_PAGE_BYTES
  }

  function Newest(views: seq<EntryView>, n: nat): seq<EntryView>
    requires n <= |views|
  {
    views[|views| - n..]
  }

  lemma {:induction false} FrontAdds(v: EntryView, rest: seq<EntryView>, size: EntryView -> nat)
    ensures Total(Sizes([v] + rest, size)) == size(v) + Total(Sizes(rest, size))
  {
    var all := [v] + rest;
    if rest == [] {
      assert all == [v] && all[..0] == [];
      assert Sizes(all, size) == Sizes(all[..0], size) + [size(v)];
      assert Sizes(all, size)[..0] == [];
    } else {
      FrontAdds(v, rest[..|rest| - 1], size);
      assert all[..|all| - 1] == [v] + rest[..|rest| - 1];
      var a, b := Sizes(all[..|all| - 1], size), Sizes(rest[..|rest| - 1], size);
      assert Sizes(all, size)[..|all| - 1] == a && Sizes(rest, size)[..|rest| - 1] == b;
    }
  }

  lemma OneMoreTakesMore(views: seq<EntryView>, size: EntryView -> nat, lastSequence: nat, n: nat)
    requires n < |views|
    ensures NetworkPageBytes(Newest(views, n), size, lastSequence, |views|)
         <= NetworkPageBytes(Newest(views, n + 1), size, lastSequence, |views|)
  {
    hide Sizes, Total, Digits;
    FrontAdds(views[|views| - n - 1], Newest(views, n), size);
    assert [views[|views| - n - 1]] + Newest(views, n) == Newest(views, n + 1);
    DigitsMonotone(n, n + 1);
  }

  /** A page of more of the newest records never takes fewer bytes. */
  lemma {:induction false} NewestPagesGrow(views: seq<EntryView>, size: EntryView -> nat, lastSequence: nat, m: nat, n: nat)
    requires m <= n <= |views|
    ensures NetworkPageBytes(Newest(views, m), size, lastSequence, |views|)
         <= NetworkPageBytes(Newest(views, n), size, lastSequence, |views|)
    decreases n
  {
    hide NetworkPageBytes, Newest;
    if m < n {
      NewestPagesGrow(views, size, lastSequence, m, n - 1);
      OneMoreTakesMore(views, size, lastSequence, n - 1);
    }
  }

  lemma OverfullStaysOverfull(views: seq<EntryView>, size: EntryView -> nat, lastSequence: nat, m: nat, n: nat)
    requires m <= n <= |views| && !NetworkPageFits(Newest(views, m), size, lastSequence, |views|)
    ensures !NetworkPageFits(Newest(views, n), size, lastSequence, |views|)
  {
    NewestPagesGrow(views, size, lastSequence, m, n);
  }

  lemma NewestOfNone(views: seq<EntryView>)
    ensures Newest(views, 0) == []
  {
  }

  lemma OneMore(views: seq<EntryView>, n: nat)
    requires n < |views|
    ensures [views[|views| - n - 1]] + Newest(views, n) == Newest(views, n + 1)
  {
  }

  /** A page only shows records of the ring numbered above where the query starts. */
  lemma ShownIsLater(buffer: seq<Entry>, q: Query, n: nat, v: EntryView)
    requires n <= |Selected(Views(buffer), q)| && v in Newest(Selected(Views(buffer), q), n)
    ensures exists e :: e in buffer && e.View() == v && e.sequence > After(q)
  {
    hide Selected, Views;
    var views := Views(buffer);
    assert v in Selected(views, q);
    assert v in views;
    var i :| 0 <= i < |views| && views[i] == v;
    assert buffer[i] in buffer && buffer[i].View() == v;
  }

  // ------------------------------------------------------------------------ ring

  class NetworkDiagnostics {
    var sequence: nat
    var buffer: seq<Entry>
    var requests: map<string, Entry>
    var mainFrameId: Option<string>

    constructor ()
      ensures Valid() && buffer == [] && requests == map[] && sequence == 0 && mainFrameId == None
    {
      sequence, buffer, requests, mainFrameId := 0, [], map[], None;
    }

    ghost predicate Valid()
      reads this, buffer
    {
      |buffer| <= MAX_ENTRIES && Ordered(buffer, sequence) && Tracked(requests, buffer)
    }

    ghost function InFlight(): set<Entry>
      reads this
    {
      set id | id in requests :: requests[id]
    }

    /** The record an event may update, if any. */
    ghost function Target(id: string): set<Entry>
      reads this
    {
      if id in requests then {requests[id]} else {}
    }

    /** No record that was out of flight is back in flight. */
    twostate predicate NoneRevived()
      reads this
    {
      forall e: Entry :: e in InFlight() && old(allocated(e)) ==> e in old(InFlight())
    }

    /** The record pushed last. */
    function Latest(): Entry
      requires buffer != []
      reads this
    {
      buffer[|buffer| - 1]
    }

    method RequestWillBeSent(ev: Event)
      requires Valid() && ev.WillBeSent?
      modifies this`sequence, this`buffer, this`requests, Target(ev.id)
      ensures Valid() && NoneRevived()
      ensures ev.id == "" || mainFrameId != Some(ev.frameId) ==>
                sequence == old(sequence) && buffer == old(buffer) && requests == old(requests)
      ensures ev.id == "" || mainFrameId != Some(ev.frameId) || ev.redirect.None? ==>
                ev.id in old(requests) ==> old(requests[ev.id]).View() == old(requests[ev.id].View())
      ensures ev.id != "" && mainFrameId == Some(ev.frameId) ==>
                && sequence == old(sequence) + 1
                && buffer != [] && fresh(Latest())
                && Latest().View() == EntryView(sequence, ev.url, ev.resourceType, Pending, None, "", "", "", None)
                && Latest().requestId == ev.id && Latest().startedAt == ev.sentAt && Latest().loaderId == ev.loaderId
                && buffer == Pushed(old(buffer), Latest())
                && requests == Evicted(old(requests)[ev.id := Latest()], old(buffer))
      ensures ev.id != "" && mainFrameId == Some(ev.frameId) && ev.id in old(requests) && ev.redirect.Some? ==>
                var p := old(requests[ev.id]);
                p.View() == Answered(old(requests[ev.id].View()), ev.redirect.value).(
                              outcome := Redirect, durationMs := Some(DurationMs(p.startedAt, ev.sentAt)))
    {
      hide Pushed, Evicted, Ordered, Tracked, DurationMs, Answered;
      if ev.id == "" || mainFrameId != Some(ev.frameId) {
        return;
      }
      if ev.id in requests && ev.redirect.Some? {
        FinishRedirected(ev.id, ev.redirect.value, ev.sentAt);
      }
      Issue(ev);
      assert (old(requests) - {ev.id})[ev.id := Latest()] == old(requests)[ev.id := Latest()];
    }

    /** The request goes on elsewhere under the same id: its record is complete. */
    method FinishRedirected(id: string, response: Response, at: real)
      requires Valid() && id in requests
      modifies this`requests, Target(id)
      ensures Valid() && NoneRevived() && requests == old(requests) - {id}
      ensures var p := old(requests[id]);
              p.View() == Answered(old(requests[id].View()), response).(
                            outcome := Redirect, durationMs := Some(DurationMs(p.startedAt, at)))
    {
      var previous := requests[id];
      previous.ApplyResponse(response);
      previous.outcome := Redirect;
      previous.durationMs := Some(DurationMs(previous.startedAt, at));
      requests := requests - {id};
    }

    method Issue(ev: Event)
      requires Valid() && ev.WillBeSent? && ev.id != ""
      modifies this`sequence, this`buffer, this`requests
      ensures Valid() && NoneRevived() && sequence == old(sequence) + 1
      ensures buffer != [] && fresh(Latest())
      ensures Latest().View() == EntryView(sequence, ev.url, ev.resourceType, Pending, None, "", "", "", None)
      ensures Latest().requestId == ev.id && Latest().startedAt == ev.sentAt && Latest().loaderId == ev.loaderId
      ensures buffer == Pushed(old(buffer), Latest())
      ensures requests == Evicted(old(requests)[ev.id := Latest()], old(buffer))
    {
      sequence := sequence + 1;
      var entry := new Entry(ev.id, ev.sentAt, ev.loaderId, sequence, ev.url, ev.resourceType);
      PushedOrdered(buffer, sequence - 1, entry);
      PushedTracked(requests, buffer, entry);
      requests := requests[ev.id := entry];
      Append(entry);
    }

    /** Push a record and drop the oldest beyond 200, forgetting it if it is still in flight. */
    method Append(entry: Entry)
      requires |buffer| <= MAX_ENTRIES
      modifies this`buffer, this`requests
      ensures buffer == Pushed(old(buffer), entry)
      ensures requests == Evicted(old(requests), old(buffer))
    {
      buffer := buffer + [entry];
      if |buffer| <= MAX_ENTRIES {
        return;
      }
      var removed := buffer[0];
      buffer := buffer[1..];
      if removed.requestId in requests && requests[removed.requestId] == removed {
        requests := requests - {removed.requestId};
      }
    }

    method ResponseReceived(ev: Event)
      requires Valid() && ev.Received?
      modifies Target(ev.id)
      ensures Valid()
      ensures ev.id in requests ==>
                var v := Answered(old(requests[ev.id].View()), ev.response);
                requests[ev.id].View() == v.(outcome := if v.status.Some? && v.status.value >= 400 then HttpError else v.outcome,
                                             resourceType := if v.resourceType == "other" then ev.resourceType else v.resourceType)
    {
      if ev.id !in requests {
        return;
      }
      var entry := requests[ev.id];
      entry.ApplyResponse(ev.response);
      if entry.status.Some? && entry.status.value >= 400 {
        entry.outcome := HttpError;
      }
      if entry.resourceType == "other" {
        entry.resourceType := ev.resourceType;
      }
    }

    method LoadingFinished(ev: Event)
      requires Valid() && ev.Finished?
      modifies this`requests, Target(ev.id)
      ensures Valid() && NoneRevived() && requests == old(requests) - {ev.id}
      ensures ev.id in old(requests) ==>
                var e := old(requests[ev.id]);
                var v := old(requests[ev.id].View());
                e !in InFlight() &&
                e.View() == v.(outcome := if v.outcome == Pending then Success else v.outcome,
                               durationMs := Some(DurationMs(e.startedAt, ev.at.GetOr(e.startedAt))))
    {
      if ev.id !in requests {
        return;
      }
      var entry := requests[ev.id];
      if entry.outcome == Pending {
        entry.outcome := Success;
      }
      entry.durationMs := Some(DurationMs(entry.startedAt, ev.at.GetOr(entry.startedAt)));
      requests := requests - {ev.id};
    }

    method LoadingFailed(ev: Event)
      requires Valid() && ev.Failed?
      modifies this`requests, Target(ev.id)
      ensures Valid() && NoneRevived() && requests == old(requests) - {ev.id}
      ensures ev.id in old(requests) ==>
                var e := old(requests[ev.id]);
                e !in InFlight() &&
                e.View() == old(requests[ev.id].View()).(outcome := Failure, failureReason := ev.reason,
                                                         durationMs := Some(DurationMs(e.startedAt, ev.at.GetOr(e.startedAt))))
    {
      if ev.id !in requests {
        return;
      }
      var entry := requests[ev.id];
      entry.outcome := Failure;
      entry.failureReason := ev.reason;
      entry.durationMs := Some(DurationMs(entry.startedAt, ev.at.GetOr(entry.startedAt)));
      requests := requests - {ev.id};
    }

    /** Records go, the counter stays: recovery keeps the query checkpoints of the page session. */
    method Reset()
      modifies this`buffer, this`requests
      ensures Valid() && buffer == [] && requests == map[]
    {
      buffer, requests := [], map[];
    }

    method ResetForNavigation(loader: Option<string>)
      requires Valid()
      modifies this`buffer, this`requests
      ensures Valid() && NoneRevived()
      ensures loader == None || loader == Some("") ==> buffer == [] && requests == map[]
      ensures loader.Some? && loader.value != "" ==>
                && buffer == OfLoader(old(buffer), loader.value)
                && requests == map id | id in old(requests) && old(requests)[id].loaderId == loader :: old(requests)[id]
      ensures forall e :: e in buffer ==> e in old(buffer)
    {
      if loader.None? || loader.value == "" {
        Reset();
        return;
      }
      OfLoaderSelects(buffer, loader.value);
      OfLoaderOrdered(buffer, loader.value, sequence);
      buffer := OfLoader(buffer, loader.value);
      requests := map id | id in requests && requests[id].loaderId == loader :: requests[id];
    }

    method ResetScope()
      requires Valid()
      modifies this`mainFrameId, this`requests
      ensures Valid() && mainFrameId == None && requests == map[]
    {
      mainFrameId, requests := None, map[];
    }

    /** Another transport is another session: only then does the counter start again. */
    method SetTransport()
      requires Valid()
      modifies this
      ensures Valid() && buffer == [] && requests == map[] && sequence == 0 && mainFrameId == None
    {
      ResetScope();
      sequence := 0;
      Reset();
    }

    /** The request id an event is about; "" for none. */
    function About(ev: Event): string {
      match ev
      case WillBeSent(id, _, _, _, _, _, _) => id
      case Received(id, _, _) => id
      case Finished(id, _) => id
      case Failed(id, _, _) => id
      case _ => ""
    }

    /** A request of the main frame is about to be sent. */
    predicate Recorded(ev: Event)
      reads this
    {
      ev.WillBeSent? && ev.id != "" && mainFrameId == Some(ev.frameId)
    }

    /**
      What each event leaves. Only a recorded request adds a record, numbered next; a
      redirect, response, end or failure changes the record in flight under its id and
      no other; what has ended is out of flight; a navigation keeps the new document's
      records; a detached page, a recovery and a removed listener forget what is in
      flight, the first two the ring as well. The main frame is the one last named.
     */
    method Handle(ev: Event)
      requires Valid()
      modifies this, InFlight()
      ensures Valid() && NoneRevived() && sequence >= old(sequence)
      ensures forall e :: e in buffer ==> e in old(buffer) || (fresh(e) && e.sequence > old(sequence))
      ensures forall e: Entry :: old(allocated(e)) && e !in old(Target(About(ev))) ==> unchanged(e)
      ensures sequence == old(sequence) + if old(Recorded(ev)) then 1 else 0
      ensures old(Recorded(ev)) ==>
                && buffer != [] && fresh(Latest()) && buffer == Pushed(old(buffer), Latest())
                && Latest().View() == EntryView(sequence, ev.url, ev.resourceType, Pending, None, "", "", "", None)
                && Latest().requestId == ev.id && Latest().startedAt == ev.sentAt && Latest().loaderId == ev.loaderId
                && requests == Evicted(old(requests)[ev.id := Latest()], old(buffer))
      ensures old(Recorded(ev)) && ev.redirect.Some? && ev.id in old(requests) ==>
                var p := old(requests[ev.id]);
                p.View() == Answered(old(requests[ev.id].View()), ev.redirect.value).(
                              outcome := Redirect, durationMs := Some(DurationMs(p.startedAt, ev.sentAt)))
      ensures ev.WillBeSent? && !(old(Recorded(ev)) && ev.redirect.Some?) && ev.id in old(requests) ==>
                old(requests[ev.id]).View() == old(requests[ev.id].View())
      ensures ev.Received? && ev.id in old(requests) ==>
                var v := Answered(old(requests[ev.id].View()), ev.response);
                requests == old(requests) &&
                requests[ev.id].View() == v.(outcome := if v.status.Some? && v.status.value >= 400 then HttpError else v.outcome,
                                             resourceType := if v.resourceType == "other" then ev.resourceType else v.resourceType)
      ensures ev.Finished? && ev.id in old(requests) ==>
                var e := old(requests[ev.id]);
                var v := old(requests[ev.id].View());
                e.View() == v.(outcome := if v.outcome == Pending then Success else v.outcome,
                               durationMs := Some(DurationMs(e.startedAt, ev.at.GetOr(e.startedAt))))
      ensures ev.Failed? && ev.id in old(requests) ==>
                var e := old(requests[ev.id]);
                e.View() == old(requests[ev.id].View()).(outcome := Failure, failureReason := ev.reason,
                                                         durationMs := Some(DurationMs(e.startedAt, ev.at.GetOr(e.startedAt))))
      ensures ev.Finished? || ev.Failed? ==> requests == old(requests) - {ev.id}
      ensures (ev.WillBeSent? && !old(Recorded(ev))) || ev.Received? || ev.MainFrameKnown? ==> requests == old(requests)
      ensures (ev.WillBeSent? && !old(Recorded(ev))) || ev.Received? || ev.Finished? || ev.Failed? || ev.ListenerRemoved? || ev.MainFrameKnown? ==>
                buffer == old(buffer)
      ensures ev.MainNavigated? ==>
                if ev.loader == None || ev.loader == Some("") then buffer == [] && requests == map[]
                else buffer == OfLoader(old(buffer), ev.loader.value)
                     && requests == map id | id in old(requests) && old(requests)[id].loaderId == ev.loader :: old(requests)[id]
      ensures ev.MainDetached? || ev.Recovered? ==> buffer == [] && requests == map[]
      ensures ev.ListenerRemoved? ==> requests == map[]
      ensures mainFrameId == match ev
                             case MainNavigated(mainFrame, _) => mainFrame
                             case MainDetached => None
                             case Recovered => None
                             case ListenerRemoved => None
                             case MainFrameKnown(frame) => Some(frame)
                             case _ => old(mainFrameId)
    {
      hide Pushed, Evicted, Ordered, DurationMs, Answered, OfLoader;
      match ev
      case WillBeSent(_, _, _, _, _, _, _) =>
        RequestWillBeSent(ev);
        if buffer != [] {
          PushedMembers(old(buffer), Latest());
        }
      case Received(_, _, _) => ResponseReceived(ev);
      case Finished(_, _) => LoadingFinished(ev);
      case Failed(_, _, _) => LoadingFailed(ev);
      case MainNavigated(mainFrame, loader) =>
        ResetForNavigation(loader);
        mainFrameId := mainFrame;
      case MainDetached =>
        Reset();
        ResetScope();
      case Recovered =>
        ResetScope();
        Reset();
      case ListenerRemoved => ResetScope();
      case MainFrameKnown(frame) => mainFrameId := Some(frame);
    }

    /**
      Over any run of events: the ring invariant holds, a record that has left flight
      is never changed or revived, and records not in the ring before are new ones
      numbered above everything issued before.
     */
    method HandleAll(events: seq<Event>)
      requires Valid()
      modifies this, InFlight()
      ensures Valid() && NoneRevived() && sequence >= old(sequence)
      ensures forall e: Entry :: old(allocated(e)) && e !in old(InFlight()) ==> unchanged(e)
      ensures forall e :: e in buffer ==> e in old(buffer) || (fresh(e) && e.sequence > old(sequence))
    {
      for i := 0 to |events|
        invariant Valid() && NoneRevived() && sequence >= old(sequence)
        invariant forall e :: e in buffer ==> e in old(buffer) || (fresh(e) && e.sequence > old(sequence))
      {
        Handle(events[i]);
      }
    }

    /** The newest matching records, as many as the limit and the byte budget allow. */
    method GetNetworkDiagnostics(q: Query, size: EntryView -> nat) returns (page: Page)
      ensures var all := Selected(Views(buffer), q);
              var n := |page.entries|;
              && page.lastSequence == sequence && page.totalEntries == |all| && page.truncated == (n < |all|)
              && n <= |all| && n <= Limit(q) && page.entries == Newest(all, n)
              && (n > 0 ==> NetworkPageFits(page.entries, size, sequence, |all|))
              && forall k: nat :: n < k <= |all| && k <= Limit(q) ==> !NetworkPageFits(Newest(all, k), size, sequence, |all|)
    {
      hide Selected, Views, Limit, NetworkPageFits, Newest;
      var all := Selected(Views(buffer), q);
      var total := |all|;
      var least := if total <= Limit(q) then 0 else total - Limit(q);
      NewestOfNone(all);
      var entries: seq<EntryView> := [];
      var index := total;
      while index > least
        invariant least <= index <= total && |entries| == total - index && entries == Newest(all, total - index)
        invariant entries != [] ==> NetworkPageFits(entries, size, sequence, total)
      {
        OneMore(all, total - index);
        var candidate := [all[index - 1]] + entries;
        if !NetworkPageFits(candidate, size, sequence, total) {
          forall k: nat | total - index < k <= total
            ensures !NetworkPageFits(Newest(all, k), size, sequence, total)
          {
            OverfullStaysOverfull(all, size, sequence, total - index + 1, k);
          }
          break;
        }
        entries, index := candidate, index - 1;
      }
      page := Page(entries, sequence, total, |entries| < total);
    }

    /**
      Polling one transport: whatever happens between two polls, the second one, asked
      from the first one's `lastSequence`, only shows records made after the first.
     */
    method PollTwice(first: Query, events: seq<Event>, second: Query, size: EntryView -> nat)
      returns (earlier: Page, later: Page)
      requires Valid()
      modifies this, InFlight()
      ensures Valid()
      ensures After(second) >= earlier.lastSequence ==>
                forall v :: v in later.entries ==> exists e :: e in buffer && fresh(e) && e.View() == v
    {
      hide Selected, Views, Limit, NetworkPageFits, Newest;
      earlier := GetNetworkDiagnostics(first, size);
      HandleAll(events);
      later := GetNetworkDiagnostics(second, size);
      if After(second) >= earlier.lastSequence {
        forall v | v in later.entries
          ensures exists e :: e in buffer && fresh(e) && e.View() == v
        {
          ShownIsLater(buffer, second, |later.entries|, v);
        }
      }
    }
  }
}
