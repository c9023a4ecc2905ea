/** The websocket history: the last records pushed, and for each client how far it has got. */
module Websockets {
  const MAX_HISTORY_SIZE: nat := 250

  /** Times are in microseconds. */
  datatype Record = Record(ts: nat, data: string)

  function Trimmed(records: seq<Record>): seq<Record> {
    if |records| > MAX_HISTORY_SIZE then records[|records| - MAX_HISTORY_SIZE..] else records
  }

  /** The longest end part in which every record is newer than the cursor. */
  function Fresh(records: seq<Record>, cursor: nat): (r: seq<Record>)
    ensures |r| <= |records|
  {
    var n := |records|;
    if n == 0 || records[n - 1].ts <= cursor then [] else Fresh(records[..n - 1], cursor) + [records[n - 1]]
  }

  function Advanced(sent: seq<Record>, cursor: nat): nat {
    if sent == [] then cursor else sent[|sent| - 1].ts
  }

  class Context {
    var jsonData: seq<Record>

    constructor ()
      ensures jsonData == []
    {
      jsonData := [];
    }

    method Push(now: nat, data: string)
      modifies this
      ensures jsonData == Trimmed(old(jsonData) + [Record(now, data)])
    {
      jsonData := jsonData + [Record(now, data)];
      ghost var all := jsonData;
      while |jsonData| > MAX_HISTORY_SIZE
        invariant |jsonData| <= |all| && jsonData == all[|all| - |jsonData|..]
        invariant |jsonData| >= MAX_HISTORY_SIZE || jsonData == all
      {
        jsonData := jsonData[1..];
      }
    }
  }

  class Session {
    var ts: nat

    constructor ()
      ensures ts == 0
    {
      ts := 0;
    }

    /** Writes every record the client has not had; the output is what is written. */
    method SendRecords(wg: Context) returns (sent: seq<Record>)
      modifies this
      ensures sent == Fresh(wg.jsonData, old(ts)) && ts == Advanced(sent, old(ts))
    {
      hide Fresh;
      sent := [];
      var records := wg.jsonData;
      assert records == [] ==> Fresh(records, ts) == [] by { NothingFresh(ts); }
      if records != [] {
        var offset := |records| - 1;
        while ts < records[offset].ts && offset > 0
          invariant 0 <= offset < |records| && ts == old(ts)
          invariant forall i :: offset < i < |records| ==> records[i].ts > ts
          decreases offset
        {
          offset := offset - 1;
        }
        if ts >= records[offset].ts {
          offset := offset + 1;
        }
        FreshIs(records, ts, offset);
        ghost var start := offset;
        while offset < |records|
          invariant start <= offset <= |records| && sent == records[start..offset]
          invariant ts == if offset == start then old(ts) else records[offset - 1].ts
        {
          OneLonger(records, start, offset);
          sent := sent + [records[offset]];
          ts := records[offset].ts;
          offset := offset + 1;
        }
        assert records[start..|records|] == records[start..];
      }
    }
  }

  lemma NothingFresh(cursor: nat)
    ensures Fresh([], cursor) == []
  {
  }

  lemma OneLonger(records: seq<Record>, start: nat, offset: nat)
    requires start <= offset < |records|
    ensures records[start..offset] + [records[offset]] == records[start..offset + 1]
  {
  }

  lemma {:induction false} FreshIs(records: seq<Record>, cursor: nat, offset: nat)
    requires offset <= |records| && forall i :: offset <= i < |records| ==> records[i].ts > cursor
    requires offset == 0 || records[offset - 1].ts <= cursor
    ensures Fresh(records, cursor) == records[offset..]
    decreases |records|
  {
    if offset < |records| {
      var init := records[..|records| - 1];
      FreshIs(init, cursor, offset);
      assert records[offset..] == init[offset..] + [records[|records| - 1]];
    }
  }

  lemma {:induction false} FreshIsNewer(records: seq<Record>, cursor: nat)
    ensures var at := |records| - |Fresh(records, cursor)|;
            && Fresh(records, cursor) == records[at..]
            && (forall i :: at <= i < |records| ==> records[i].ts > cursor)
            && (at > 0 ==> records[at - 1].ts <= cursor)
    decreases |records|
  {
    var n := |records|;
    if n > 0 && records[n - 1].ts > cursor {
      var init := records[..n - 1];
      FreshIsNewer(init, cursor);
      OneMoreFresh(records, init, n - 1 - |Fresh(init, cursor)|);
    }
  }

  lemma OneMoreFresh(records: seq<Record>, init: seq<Record>, at: nat)
    requires records != [] && init == records[..|records| - 1] && at <= |init|
    ensures records[at..] == init[at..] + [records[|records| - 1]]
    ensures forall i :: 0 <= i < |init| ==> records[i] == init[i]
  {
  }

  /** With the records in order of time, those sent are exactly the ones newer than the cursor. */
  lemma ExactlyTheNewer(records: seq<Record>, cursor: nat, i: nat)
    requires i < |records| && forall j, k :: 0 <= j < k < |records| ==> records[j].ts <= records[k].ts
    ensures i >= |records| - |Fresh(records, cursor)| <==> records[i].ts > cursor
  {
    FreshIsNewer(records, cursor);
  }

  // ----- runs: pushes, and the calls for one client

  datatype Event = Push(record: Record) | Send

  /** Everything the client is sent, from these records and this cursor on. */
  function Stream(run: seq<Event>, records: seq<Record>, cursor: nat): seq<Record>
    decreases |run|
  {
    if run == [] then []
    else match run[0]
      case Push(record) => Stream(run[1..], Trimmed(records + [record]), cursor)
      case Send =>
        var sent := Fresh(records, cursor);
        sent + Stream(run[1..], records, Advanced(sent, cursor))
  }

  /** All records of a run. */
  function Pushed(run: seq<Event>): seq<Record> {
    if run == [] then [] else (if run[0].Push? then [run[0].record] else []) + Pushed(run[1..])
  }

  function Range(from: nat, to: nat): (r: seq<nat>)
    requires from <= to
    ensures |r| == to - from && forall i :: 0 <= i < |r| ==> r[i] == from + i
  {
    seq(to - from, i requires 0 <= i < to - from => from + i)
  }

  /** The first of n records that is retained. */
  function Retained(n: nat): (r: nat)
    ensures r <= n
  {
    if n > MAX_HISTORY_SIZE then n - MAX_HISTORY_SIZE else 0
  }

  /** The first record a call sends. */
  function Begin(log: seq<Record>, n: nat, cursor: nat): (b: nat)
    requires n <= |log|
    ensures Retained(n) <= b <= n
  {
    n - |Fresh(log[Retained(n)..n], cursor)|
  }

  /** Which of all records, by number, the client is sent, after n pushes and with this cursor. */
  function Delivered(log: seq<Record>, run: seq<Event>, n: nat, cursor: nat): seq<nat>
    requires n + |Pushed(run)| <= |log|
    decreases |run|
  {
    if run == [] then []
    else if run[0].Push? then Delivered(log, run[1..], n + 1, cursor)
    else
      var b := Begin(log, n, cursor);
      Range(b, n) + Delivered(log, run[1..], n, Advanced(log[b..n], cursor))
  }

  function Select(log: seq<Record>, numbers: seq<nat>): (r: seq<Record>)
    requires forall i :: 0 <= i < |numbers| ==> numbers[i] < |log|
    ensures |r| == |numbers| && forall i :: 0 <= i < |r| ==> r[i] == log[numbers[i]]
  {
    seq(|numbers|, i requires 0 <= i < |numbers| => log[numbers[i]])
  }

  /** How many records have been pushed when the first call after record i is made; -1 if none is. */
  function PushedAtNextSend(run: seq<Event>, n: nat, i: nat): int
    decreases |run|
  {
    if run == [] then -1
    else if run[0].Push? then PushedAtNextSend(run[1..], n + 1, i)
    else if i < n then n
    else PushedAtNextSend(run[1..], n, i)
  }

  /** A call is made after record j has been pushed and before record i is. */
  predicate CallBetween(run: seq<Event>, n: nat, j: nat, i: nat)
    decreases |run|
  {
    run != [] &&
    if run[0].Push? then CallBetween(run[1..], n + 1, j, i)
    else j < n <= i || CallBetween(run[1..], n, j, i)
  }

  // ----- any clock: order, and nothing twice

  /** What a call sends starts behind every record that is not newer than the cursor. */
  lemma BeginBehind(log: seq<Record>, n: nat, cursor: nat)
    requires n <= |log|
    ensures var b := Begin(log, n, cursor);
            && Fresh(log[Retained(n)..n], cursor) == log[b..n]
            && (forall i :: b <= i < n ==> log[i].ts > cursor)
            && (b > Retained(n) ==> log[b - 1].ts <= cursor)
  {
    hide Fresh, Retained;
    var records := log[Retained(n)..n];
    FreshIsNewer(records, cursor);
    PartOf(log, Retained(n), n, |records| - |Fresh(records, cursor)|, cursor);
  }

  lemma PartOf(log: seq<Record>, low: nat, n: nat, at: nat, cursor: nat)
    requires low <= low + at <= n <= |log|
    ensures log[low..n][at..] == log[low + at..n]
    ensures (forall i :: at <= i < n - low ==> log[low..n][i].ts > cursor)
            ==> forall i :: low + at <= i < n ==> log[i].ts > cursor
    ensures at > 0 ==> log[low..n][at - 1] == log[low + at - 1]
  {
    forall i | low + at <= i < n ensures log[i] == log[low..n][i - low] {
    }
  }

  /** The last record there was at the last call is not newer than the cursor. */
  predicate HadUpTo(log: seq<Record>, p: nat, cursor: nat) {
    p <= |log| && (p > 0 ==> log[p - 1].ts <= cursor)
  }

  lemma CallMovesOn(log: seq<Record>, n: nat, p: nat, cursor: nat)
    requires p <= n <= |log| && HadUpTo(log, p, cursor)
    ensures var b := Begin(log, n, cursor);
            p <= b && HadUpTo(log, n, Advanced(log[b..n], cursor))
  {
    hide Begin, Fresh, Retained;
    var b := Begin(log, n, cursor);
    BeginBehind(log, n, cursor);
    LastRetained(n);
    if b < n {
      assert log[b..n][n - b - 1] == log[n - 1];
    }
  }

  lemma LastRetained(n: nat)
    ensures n > 0 ==> Retained(n) < n
  {
  }

  predicate AscendingWithin(d: seq<nat>, from: nat, to: nat) {
    && (forall k :: 0 <= k < |d| ==> from <= d[k] < to)
    && (forall j, k :: 0 <= j < k < |d| ==> d[j] < d[k])
  }

  lemma RangeFirst(b: nat, n: nat, rest: seq<nat>, to: nat)
    requires b <= n <= to && AscendingWithin(rest, n, to)
    ensures AscendingWithin(Range(b, n) + rest, b, to)
  {
    var d := Range(b, n) + rest;
    assert forall k :: 0 <= k < |d| ==> d[k] == if k < n - b then b + k else rest[k - (n - b)];
  }

  lemma {:induction false} DeliveredInRange(log: seq<Record>, run: seq<Event>, n: nat, p: nat, cursor: nat)
    requires n + |Pushed(run)| <= |log| && p <= n && HadUpTo(log, p, cursor)
    ensures AscendingWithin(Delivered(log, run, n, cursor), p, n + |Pushed(run)|)
    decreases |run|
  {
    hide Begin, Advanced, HadUpTo;
    if run != [] {
      if run[0].Push? {
        DeliveredInRange(log, run[1..], n + 1, p, cursor);
      } else {
        assert Pushed(run) == Pushed(run[1..]);
        var b := Begin(log, n, cursor);
        CallMovesOn(log, n, p, cursor);
        var next := Advanced(log[b..n], cursor);
        DeliveredInRange(log, run[1..], n, n, next);
        RangeFirst(b, n, Delivered(log, run[1..], n, next), n + |Pushed(run[1..])|);
      }
    }
  }

  lemma OnePush(log: seq<Record>, n: nat)
    requires n < |log|
    ensures Trimmed(log[Retained(n)..n] + [log[n]]) == log[Retained(n + 1)..n + 1]
  {
    assert log[Retained(n)..n] + [log[n]] == log[Retained(n)..n + 1];
  }

  lemma Joined(log: seq<Record>, from: nat, n: nat, rest: seq<nat>)
    requires from <= n <= |log| && forall k :: 0 <= k < |rest| ==> rest[k] < |log|
    ensures forall k :: 0 <= k < |Range(from, n) + rest| ==> (Range(from, n) + rest)[k] < |log|
    ensures Select(log, Range(from, n) + rest) == log[from..n] + Select(log, rest)
  {
    var d := Range(from, n) + rest;
    assert forall k :: 0 <= k < |d| ==> d[k] == if k < n - from then from + k else rest[k - (n - from)];
  }

  /** The cursor and the trimmed history do the same as counting records, whatever the clock shows. */
  lemma {:induction false} StreamIsDelivered(log: seq<Record>, run: seq<Event>, n: nat, p: nat, cursor: nat)
    requires n <= |log| && log[n..] == Pushed(run) && p <= n && HadUpTo(log, p, cursor)
    ensures forall k :: 0 <= k < |Delivered(log, run, n, cursor)| ==> Delivered(log, run, n, cursor)[k] < |log|
    ensures Stream(run, log[Retained(n)..n], cursor) == Select(log, Delivered(log, run, n, cursor))
    decreases |run|
  {
    hide Fresh, Trimmed, Retained, Select, Range, Advanced, Begin, HadUpTo;
    DeliveredInRange(log, run, n, p, cursor);
    if run != [] {
      match run[0]
      case Push(record) =>
        assert log[n] == record && log[n + 1..] == Pushed(run[1..]);
        OnePush(log, n);
        StreamIsDelivered(log, run[1..], n + 1, p, cursor);
      case Send =>
        assert Pushed(run) == Pushed(run[1..]);
        BeginBehind(log, n, cursor);
        CallMovesOn(log, n, p, cursor);
        var b := Begin(log, n, cursor);
        var next := Advanced(log[b..n], cursor);
        StreamIsDelivered(log, run[1..], n, n, next);
        Joined(log, b, n, Delivered(log, run[1..], n, next));
    }
  }

  // ----- a clock that does not go backwards: exactly which records

  predicate NonDecreasing(log: seq<Record>) {
    forall i, j :: 0 <= i < j < |log| ==> log[i].ts <= log[j].ts
  }

  /** The cursor after a call that found n records. */
  function CursorAt(log: seq<Record>, n: nat): nat
    requires n <= |log|
  {
    if n == 0 then 0 else log[n - 1].ts
  }

  lemma CallInOrder(log: seq<Record>, n: nat, p: nat)
    requires NonDecreasing(log) && p <= n <= |log|
    ensures var b := Begin(log, n, CursorAt(log, p));
            && Advanced(log[b..n], CursorAt(log, p)) == CursorAt(log, n)
            && forall i :: p <= i < n ==> (b <= i <==> Retained(n) <= i && log[i].ts > CursorAt(log, p))
  {
    hide Begin, Fresh, Retained;
    var b := Begin(log, n, CursorAt(log, p));
    BeginBehind(log, n, CursorAt(log, p));
    LastRetained(n);
    if b < n {
      assert log[b..n][n - b - 1] == log[n - 1];
    }
  }

  /** How many records there were at the last call before record i was pushed. */
  function LastCall(run: seq<Event>, n: nat, p: nat, i: nat): nat
    decreases |run|
  {
    if run == [] then p
    else if run[0].Push? then LastCall(run[1..], n + 1, p, i)
    else if i < n then p
    else LastCall(run[1..], n, n, i)
  }

  lemma {:induction false} LastCallBounded(run: seq<Event>, n: nat, p: nat, i: nat)
    requires p <= n && p <= i
    ensures p <= LastCall(run, n, p, i) <= i
    decreases |run|
  {
    if run != [] {
      if run[0].Push? {
        LastCallBounded(run[1..], n + 1, p, i);
      } else if n <= i {
        LastCallBounded(run[1..], n, n, i);
      }
    }
  }

  lemma InRangeOrRest(b: nat, n: nat, rest: seq<nat>, to: nat, i: nat)
    requires b <= n <= to && AscendingWithin(rest, n, to)
    ensures i in Range(b, n) + rest <==> (b <= i < n) || i in rest
    ensures i < n ==> i !in rest
  {
    assert b <= i < n ==> Range(b, n)[i - b] == i;
  }

  lemma RetainedIs(n: nat, i: nat)
    ensures Retained(n) <= i <==> n <= i + MAX_HISTORY_SIZE
  {
  }

  /** The call decides about the records that are there. */
  lemma CallDecides(log: seq<Record>, n: nat, p: nat, i: nat, rest: seq<nat>, to: nat)
    requires NonDecreasing(log) && p <= n <= |log| && n <= to && AscendingWithin(rest, n, to) && p <= i
    ensures i in Range(Begin(log, n, CursorAt(log, p)), n) + rest
            <==> if i < n then n <= i + MAX_HISTORY_SIZE && log[i].ts > CursorAt(log, p) else i in rest
  {
    hide Begin, Advanced, NonDecreasing, CursorAt, AscendingWithin, Range, Retained;
    CallInOrder(log, n, p);
    InRangeOrRest(Begin(log, n, CursorAt(log, p)), n, rest, to, i);
    RetainedIs(n, i);
  }

  lemma CallPushesNothing(run: seq<Event>)
    requires run != [] && run[0].Send?
    ensures Pushed(run) == Pushed(run[1..])
  {
  }

  /** What a run starting with a call delivers. */
  lemma CallFirst(log: seq<Record>, run: seq<Event>, n: nat, cursor: nat, b: nat, next: nat)
    requires run != [] && run[0].Send? && n + |Pushed(run)| <= |log| && |Pushed(run)| == |Pushed(run[1..])|
    requires b == Begin(log, n, cursor) && next == Advanced(log[b..n], cursor)
    ensures Delivered(log, run, n, cursor) == Range(b, n) + Delivered(log, run[1..], n, next)
  {
    hide Begin, Advanced, Range, Pushed;
  }

  lemma NothingDelivered(log: seq<Record>, n: nat, cursor: nat)
    requires n <= |log|
    ensures Delivered(log, [], n, cursor) == []
  {
  }

  lemma PushFirst(log: seq<Record>, run: seq<Event>, n: nat, cursor: nat)
    requires run != [] && run[0].Push? && n + |Pushed(run)| <= |log|
    ensures Delivered(log, run, n, cursor) == Delivered(log, run[1..], n + 1, cursor)
  {
  }

  lemma {:induction false} DeliveredIf(log: seq<Record>, run: seq<Event>, n: nat, p: nat, i: nat)
    requires NonDecreasing(log) && n + |Pushed(run)| <= |log| && p <= n && p <= i < |log|
    ensures LastCall(run, n, p, i) <= |log|
    ensures i in Delivered(log, run, n, CursorAt(log, p))
            <==> && 0 <= PushedAtNextSend(run, n, i) <= i + MAX_HISTORY_SIZE
                 && log[i].ts > CursorAt(log, LastCall(run, n, p, i))
    decreases |run|
  {
    hide Begin, Advanced, NonDecreasing, CursorAt, Range, Retained, AscendingWithin, Delivered, HadUpTo;
    LastCallBounded(run, n, p, i);
    if run == [] {
      NothingDelivered(log, n, CursorAt(log, p));
    } else {
      if run[0].Push? {
        PushFirst(log, run, n, CursorAt(log, p));
        DeliveredIf(log, run[1..], n + 1, p, i);
      } else {
        CallPushesNothing(run);
        CallInOrder(log, n, p);
        CursorIsHad(log, n);
        DeliveredInRange(log, run[1..], n, n, CursorAt(log, n));
        CallFirst(log, run, n, CursorAt(log, p), Begin(log, n, CursorAt(log, p)), CursorAt(log, n));
        CallDecides(log, n, p, i, Delivered(log, run[1..], n, CursorAt(log, n)), n + |Pushed(run[1..])|);
        if i >= n {
          DeliveredIf(log, run[1..], n, n, i);
        }
      }
    }
  }

  lemma CursorIsHad(log: seq<Record>, n: nat)
    requires n <= |log|
    ensures HadUpTo(log, n, CursorAt(log, n))
  {
  }

  lemma {:induction false} CallBetweenIs(run: seq<Event>, n: nat, p: nat, j: nat, i: nat)
    requires p <= j < i
    ensures CallBetween(run, n, j, i) <==> LastCall(run, n, p, i) > j
    decreases |run|
  {
    if run != [] {
      if run[0].Push? {
        CallBetweenIs(run[1..], n + 1, p, j, i);
      } else if n <= i {
        if n <= j {
          CallBetweenIs(run[1..], n, n, j, i);
        } else {
          LastCallBounded(run[1..], n, n, i);
        }
      } else {
        NoCallBetween(run[1..], n, j, i);
      }
    }
  }

  lemma {:induction false} NoCallBetween(run: seq<Event>, n: nat, j: nat, i: nat)
    requires n > i
    ensures !CallBetween(run, n, j, i)
    decreases |run|
  {
    if run != [] {
      NoCallBetween(run[1..], if run[0].Push? then n + 1 else n, j, i);
    }
  }

  /** No call was made between record i and an earlier one of the same microsecond. */
  ghost predicate Unshadowed(log: seq<Record>, run: seq<Event>, i: nat)
    requires i < |log|
  {
    forall j: nat :: j < i && log[j].ts == log[i].ts ==> !CallBetween(run, 0, j, i)
  }

  lemma UnshadowedIsNewer(log: seq<Record>, run: seq<Event>, i: nat)
    requires NonDecreasing(log) && i < |log| && LastCall(run, 0, 0, i) <= |log|
    ensures log[i].ts > CursorAt(log, LastCall(run, 0, 0, i)) <==> log[i].ts > 0 && Unshadowed(log, run, i)
  {
    var p := LastCall(run, 0, 0, i);
    LastCallBounded(run, 0, 0, i);
    forall j: nat | j < i ensures CallBetween(run, 0, j, i) <==> p > j {
      CallBetweenIs(run, 0, 0, j, i);
    }
    if p > 0 && log[p - 1].ts == log[i].ts {
      assert CallBetween(run, 0, p - 1, i);
    }
  }

  /** Over any run of pushes and calls, a new client sees records in order and none twice. */
  lemma ClientSeesOnce(run: seq<Event>)
    ensures var log, d := Pushed(run), Delivered(Pushed(run), run, 0, 0);
            && AscendingWithin(d, 0, |log|)
            && Stream(run, [], 0) == Select(log, d)
  {
    hide Delivered, Stream, AscendingWithin, Select;
    var log := Pushed(run);
    DeliveredInRange(log, run, 0, 0, 0);
    assert log[0..] == log && log[Retained(0)..0] == [];
    StreamIsDelivered(log, run, 0, 0, 0);
  }

  /** And with a clock that does not go backwards, a record is sent exactly when its next call comes before
      250 newer records do, and no call falls between it and an earlier record of its microsecond. */
  lemma ClientMissesExactly(run: seq<Event>, i: nat)
    requires NonDecreasing(Pushed(run)) && i < |Pushed(run)|
    ensures i in Delivered(Pushed(run), run, 0, 0)
            <==> && 0 <= PushedAtNextSend(run, 0, i) <= i + 250
                 && Pushed(run)[i].ts > 0 && Unshadowed(Pushed(run), run, i)
  {
    hide Delivered, NonDecreasing, Unshadowed;
    var log := Pushed(run);
    assert CursorAt(log, 0) == 0;
    DeliveredIf(log, run, 0, 0, i);
    UnshadowedIsNewer(log, run, i);
  }

  // ----- and never afterwards

  lemma {:induction false} PushedConcat(run: seq<Event>, more: seq<Event>)
    ensures Pushed(run + more) == Pushed(run) + Pushed(more)
    decreases |run|
  {
    if run == [] {
      assert run + more == more;
    } else {
      assert (run + more)[1..] == run[1..] + more && (run + more)[0] == run[0];
      PushedConcat(run[1..], more);
      var head := if run[0].Push? then [run[0].record] else [];
      Regroup(head, Pushed(run[1..]), Pushed(more));
    }
  }

  lemma Regroup(a: seq<Record>, b: seq<Record>, c: seq<Record>)
    ensures a + (b + c) == (a + b) + c
  {
  }

  lemma {:induction false} StillBetween(run: seq<Event>, more: seq<Event>, n: nat, j: nat, i: nat)
    requires CallBetween(run, n, j, i)
    ensures CallBetween(run + more, n, j, i)
    decreases |run|
  {
    assert (run + more)[1..] == run[1..] + more;
    if run[0].Push? {
      StillBetween(run[1..], more, n + 1, j, i);
    } else if !(j < n <= i) {
      StillBetween(run[1..], more, n, j, i);
    }
  }

  /** A record pushed in the microsecond of an earlier one, after a call, is never sent, however the run
      goes on. */
  lemma NeverSentAfterwards(run: seq<Event>, more: seq<Event>, j: nat, i: nat)
    requires j < i < |Pushed(run)| && Pushed(run)[j].ts == Pushed(run)[i].ts && CallBetween(run, 0, j, i)
    requires NonDecreasing(Pushed(run + more))
    ensures i !in Delivered(Pushed(run + more), run + more, 0, 0)
  {
    hide Delivered, NonDecreasing;
    PushedConcat(run, more);
    StillBetween(run, more, 0, j, i);
    ClientMissesExactly(run + more, i);
  }

  /** The shortest such run: the second record is retained, but no call sends it. */
  lemma SameMicrosecondIsMissed(ts: nat, a: string, b: string)
    requires ts > 0
    ensures Stream([Push(Record(ts, a)), Send, Push(Record(ts, b)), Send], [], 0) == [Record(ts, a)]
  {
    var r, s := Record(ts, a), Record(ts, b);
    var run := [Push(r), Send, Push(s), Send];
    assert Trimmed([] + [r]) == [r] && Trimmed([r] + [s]) == [r, s];
    assert Fresh([r], 0) == [r] by { FreshIs([r], 0, 0); }
    assert Fresh([r, s], ts) == [] by { FreshIs([r, s], ts, 2); }
    assert run[1..] == [Send, Push(s), Send] && run[1..][1..] == [Push(s), Send] && [Push(s), Send][1..] == [Send];
    assert [Send][1..] == [];
    assert Stream([Send], [r, s], ts) == [];
    assert Stream([Push(s), Send], [r], ts) == [];
    assert Stream([Send, Push(s), Send], [r], 0) == [r];
  }
}
