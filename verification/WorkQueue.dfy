/** The hand-over of received messages: any number of receiver threads and the main loop share, per
    tranceiver, a queue of incoming messages, and one list of tranceivers that have work.  Every queue
    has its own lock, so one action below is one critical section. */
module WorkQueue {
  type Tranceiver = nat
  type Thread = nat
  datatype Message = Message(id: nat, content: seq<bv8>)

  /** Where the main loop is. */
  datatype Main =
    | Waiting
    | Popped(t: Tranceiver)               // took t from the work list
    | Peeked(t: Tranceiver)               // the assertion that t has a message held
    | Forwarding(t: Tranceiver, m: Message)
    | AssertionFailed(t: Tranceiver)
    | NoData(t: Tranceiver)               // get_message came back empty

  datatype State = State(
    incoming: map<Tranceiver, seq<Message>>,
    workList: seq<Tranceiver>,
    between: map<Thread, Tranceiver>,     // receiver threads between their two pushes
    main: Main)

  datatype Action =
    | Queue(p: Thread, t: Tranceiver, m: Message)
    | Announce(p: Thread)
    | Pop
    | Peek
    | GetMessage
    | Forward

  function At(q: map<Tranceiver, seq<Message>>, t: Tranceiver): seq<Message> {
    if t in q then q[t] else []
  }

  const INIT := State(map[], [], map[], Waiting)

  predicate Enabled(s: State, a: Action) {
    match a
    case Queue(p, _, _) => p !in s.between
    case Announce(p) => p in s.between
    case Pop => s.main.Waiting? && s.workList != []
    case Peek => s.main.Popped?
    case GetMessage => s.main.Peeked?
    case Forward => s.main.Forwarding?
  }

  function Apply(s: State, a: Action): State
    requires Enabled(s, a)
  {
    match a
    case Queue(p, t, m) =>
      s.(incoming := s.incoming[t := At(s.incoming, t) + [m]], between := s.between[p := t])
    case Announce(p) => s.(workList := s.workList + [s.between[p]], between := s.between - {p})
    case Pop => s.(main := Popped(s.workList[0]), workList := s.workList[1..])
    case Peek => s.(main := if At(s.incoming, s.main.t) != [] then Peeked(s.main.t) else AssertionFailed(s.main.t))
    case GetMessage =>
      var t := s.main.t;
      var q := At(s.incoming, t);
      if q == [] then s.(main := NoData(t))
      else s.(main := Forwarding(t, q[0]), incoming := s.incoming[t := q[1..]])
    case Forward => s.(main := Waiting)
  }

  /** A run: each action enabled where it is taken. */
  predicate IsRun(s: State, run: seq<Action>)
    decreases |run|
  {
    run == [] || (Enabled(s, run[0]) && IsRun(Apply(s, run[0]), run[1..]))
  }

  function After(s: State, run: seq<Action>): State
    requires IsRun(s, run)
    decreases |run|
  {
    if run == [] then s else After(Apply(s, run[0]), run[1..])
  }

  // ----- the shared objects

  /** The shared state with the threads' positions; each method is one critical section. */
  class Router {
    var incoming: map<Tranceiver, seq<Message>>
    var workList: seq<Tranceiver>
    var between: map<Thread, Tranceiver>
    var main: Main

    ghost function View(): State
      reads this
    {
      State(incoming, workList, between, main)
    }

    constructor ()
      ensures View() == INIT
    {
      incoming, workList, between, main := map[], [], map[], Waiting;
    }

    /** First half of queue_incoming_message, under the tranceiver's own lock. */
    method PushIncoming(p: Thread, t: Tranceiver, m: Message)
      requires p !in between
      modifies this
      ensures View() == Apply(old(View()), Queue(p, t, m))
    {
      incoming := incoming[t := At(incoming, t) + [m]];
      between := between[p := t];
    }

    /** Second half, under the work list's lock. */
    method PushWork(p: Thread)
      requires p in between
      modifies this
      ensures View() == Apply(old(View()), Announce(p))
    {
      workList := workList + [between[p]];
      between := between - {p};
    }

    method PopWork() returns (t: Tranceiver)
      requires main == Waiting && workList != []
      modifies this
      ensures View() == Apply(old(View()), Pop) && main == Popped(t)
    {
      t := workList[0];
      workList := workList[1..];
      main := Popped(t);
    }

    /** The main loop's hard assertion: under the protocol's invariant it cannot fail. */
    method AssertPeek()
      requires main.Popped? && Consistent(View())
      modifies this
      ensures View() == Apply(old(View()), Peek) && main == Peeked(old(main).t)
    {
      HeldHasMessage(View());
      assert At(incoming, main.t) != [];
      main := Peeked(main.t);
    }

    method TakeMessage() returns (m: Message)
      requires main.Peeked? && Consistent(View())
      modifies this
      ensures View() == Apply(old(View()), GetMessage) && main == Forwarding(old(main).t, m)
    {
      HeldHasMessage(View());
      var t := main.t;
      m := At(incoming, t)[0];
      incoming := incoming[t := At(incoming, t)[1..]];
      main := Forwarding(t, m);
    }
  }

  // ----- the invariant across both queues

  function Producing(s: State, t: Tranceiver): set<Thread> {
    set p | p in s.between && s.between[p] == t
  }

  function Held(s: State, t: Tranceiver): nat {
    if (s.main.Popped? || s.main.Peeked?) && s.main.t == t then 1 else 0
  }

  /** Every message waiting at t is accounted for: listed, about to be listed, or in main's hand. */
  ghost predicate Balanced(s: State, t: Tranceiver) {
    |At(s.incoming, t)| == multiset(s.workList)[t] + |Producing(s, t)| + Held(s, t)
  }

  ghost predicate Consistent(s: State) {
    && !s.main.AssertionFailed?
    && !s.main.NoData?
    && (forall t :: Balanced(s, t))
  }

  lemma HeldHasMessage(s: State)
    requires Consistent(s) && (s.main.Popped? || s.main.Peeked?)
    ensures At(s.incoming, s.main.t) != []
  {
    assert Balanced(s, s.main.t);
  }

  lemma InitConsistent()
    ensures Consistent(INIT)
  {
    forall t ensures Balanced(INIT, t) {
      assert Producing(INIT, t) == {};
    }
  }

  lemma ProducingGrows(s: State, p: Thread, t: Tranceiver, m: Message, u: Tranceiver)
    requires p !in s.between
    ensures |Producing(Apply(s, Queue(p, t, m)), u)| == |Producing(s, u)| + (if u == t then 1 else 0)
  {
    var after := Apply(s, Queue(p, t, m));
    assert after.between == s.between[p := t];
    hide Producing;
    OneMoreProducing(s, after, p, t, u);
  }

  lemma OneMoreProducing(s: State, after: State, p: Thread, t: Tranceiver, u: Tranceiver)
    requires p !in s.between && after.between == s.between[p := t]
    ensures |Producing(after, u)| == |Producing(s, u)| + (if u == t then 1 else 0)
  {
    assert p !in Producing(s, u);
    assert Producing(after, u) == Producing(s, u) + (if u == t then {p} else {});
  }

  lemma ProducingShrinks(s: State, p: Thread, u: Tranceiver)
    requires p in s.between
    ensures |Producing(Apply(s, Announce(p)), u)| == |Producing(s, u)| - (if u == s.between[p] then 1 else 0)
  {
    var after := Apply(s, Announce(p));
    assert Producing(after, u) == Producing(s, u) - (if u == s.between[p] then {p} else {});
  }

  lemma QueueBalanced(s: State, p: Thread, t: Tranceiver, m: Message, u: Tranceiver)
    requires Balanced(s, u) && p !in s.between
    ensures Balanced(Apply(s, Queue(p, t, m)), u)
  {
    hide Producing;
    ProducingGrows(s, p, t, m, u);
  }

  lemma AnnounceBalanced(s: State, p: Thread, u: Tranceiver)
    requires Balanced(s, u) && p in s.between
    ensures Balanced(Apply(s, Announce(p)), u)
  {
    hide Producing;
    ProducingShrinks(s, p, u);
  }

  lemma PopBalanced(s: State, u: Tranceiver)
    requires Balanced(s, u) && Enabled(s, Pop)
    ensures Balanced(Apply(s, Pop), u)
  {
    assert Producing(Apply(s, Pop), u) == Producing(s, u);
    hide Producing;
    assert s.workList == [s.workList[0]] + s.workList[1..];
  }

  /** Once the message is known to be there, main's remaining steps give its token back with it. */
  lemma MainBalanced(s: State, a: Action, u: Tranceiver)
    requires Balanced(s, u) && Enabled(s, a) && (a.Peek? || a.GetMessage? || a.Forward?)
    requires !a.Forward? ==> At(s.incoming, s.main.t) != []
    ensures Balanced(Apply(s, a), u)
  {
    assert Producing(Apply(s, a), u) == Producing(s, u);
    hide Producing;
  }

  lemma StepBalanced(s: State, a: Action, u: Tranceiver)
    requires Consistent(s) && Enabled(s, a)
    ensures Balanced(Apply(s, a), u)
  {
    assert Balanced(s, u);
    match a
    case Queue(p, t, m) => QueueBalanced(s, p, t, m, u);
    case Announce(p) => AnnounceBalanced(s, p, u);
    case Pop => PopBalanced(s, u);
    case Forward => MainBalanced(s, a, u);
    case _ =>
      HeldHasMessage(s);
      MainBalanced(s, a, u);
  }

  lemma StepConsistent(s: State, a: Action)
    requires Consistent(s) && Enabled(s, a)
    ensures Consistent(Apply(s, a))
  {
    if a.Peek? || a.GetMessage? {
      HeldHasMessage(s);
    }
    forall t ensures Balanced(Apply(s, a), t) {
      StepBalanced(s, a, t);
    }
  }

  lemma {:induction false} RunConsistent(s: State, run: seq<Action>)
    requires Consistent(s) && IsRun(s, run)
    ensures Consistent(After(s, run))
    decreases |run|
  {
    if run != [] {
      StepConsistent(s, run[0]);
      RunConsistent(Apply(s, run[0]), run[1..]);
    }
  }

  // ----- what holds in every interleaving

  /** In no interleaving does the main loop's assertion fail or get_message come back empty. */
  lemma NeverFails(run: seq<Action>)
    requires IsRun(INIT, run)
    ensures !After(INIT, run).main.AssertionFailed? && !After(INIT, run).main.NoData?
  {
    InitConsistent();
    RunConsistent(INIT, run);
  }

  /** The length of every incoming queue, at every moment of every interleaving. */
  lemma IncomingLength(run: seq<Action>, t: Tranceiver)
    requires IsRun(INIT, run)
    ensures var s := After(INIT, run);
            |At(s.incoming, t)| == multiset(s.workList)[t] + |Producing(s, t)| + Held(s, t)
  {
    InitConsistent();
    RunConsistent(INIT, run);
    assert Balanced(After(INIT, run), t);
  }

  // ----- order, read off the actions of a run

  function QueuedBy(a: Action, t: Tranceiver): seq<Message> {
    if a.Queue? && a.t == t then [a.m] else []
  }

  /** What main holds after a take from t. */
  function TakenBy(a: Action, after: State, t: Tranceiver): seq<Message> {
    if a.GetMessage? && after.main.Forwarding? && after.main.t == t then [after.main.m] else []
  }

  /** An announcement is for the tranceiver its thread queued at last. */
  function AnnouncedBy(a: Action, last: map<Thread, Tranceiver>): seq<Tranceiver> {
    if a.Announce? && a.p in last then [last[a.p]] else []
  }

  function PoppedBy(a: Action, after: State): seq<Tranceiver> {
    if a.Pop? && after.main.Popped? then [after.main.t] else []
  }

  /** The messages queued at t, in order. */
  function QueuedAt(run: seq<Action>, t: Tranceiver): seq<Message> {
    if run == [] then [] else QueuedBy(run[0], t) + QueuedAt(run[1..], t)
  }

  /** The messages main takes from t, in order. */
  function TakenAt(s: State, run: seq<Action>, t: Tranceiver): seq<Message>
    requires IsRun(s, run)
    decreases |run|
  {
    if run == [] then []
    else
      var after := Apply(s, run[0]);
      TakenBy(run[0], after, t) + TakenAt(after, run[1..], t)
  }

  /** The tranceivers announced, in order; `last` says where threads have queued without having
      announced it yet. */
  function Announced(last: map<Thread, Tranceiver>, run: seq<Action>): seq<Tranceiver>
    decreases |run|
  {
    if run == [] then []
    else
      AnnouncedBy(run[0], last) +
      match run[0]
      case Queue(p, t, _) => Announced(last[p := t], run[1..])
      case Announce(p) => Announced(last - {p}, run[1..])
      case _ => Announced(last, run[1..])
  }

  /** The tranceivers main takes up, in order. */
  function PoppedIn(s: State, run: seq<Action>): seq<Tranceiver>
    requires IsRun(s, run)
    decreases |run|
  {
    if run == [] then []
    else
      var after := Apply(s, run[0]);
      PoppedBy(run[0], after) + PoppedIn(after, run[1..])
  }

  lemma MessageStep(s: State, a: Action, t: Tranceiver)
    requires Enabled(s, a)
    ensures At(s.incoming, t) + QueuedBy(a, t) == TakenBy(a, Apply(s, a), t) + At(Apply(s, a).incoming, t)
  {
  }

  lemma WorkStep(s: State, a: Action)
    requires Enabled(s, a)
    ensures s.workList + AnnouncedBy(a, s.between) == PoppedBy(a, Apply(s, a)) + Apply(s, a).workList
  {
  }

  /** What goes in and comes out over two stretches. */
  lemma Stretches<T>(q0: seq<T>, put0: seq<T>, got0: seq<T>, q1: seq<T>, put1: seq<T>, got1: seq<T>, q2: seq<T>)
    requires q0 + put0 == got0 + q1 && q1 + put1 == got1 + q2
    ensures q0 + (put0 + put1) == (got0 + got1) + q2
  {
    assert q0 + (put0 + put1) == (q0 + put0) + put1;
    assert (got0 + q1) + put1 == got0 + (q1 + put1);
    assert got0 + (got1 + q2) == (got0 + got1) + q2;
  }

  lemma {:induction false} MessagesInOrder(s: State, run: seq<Action>, t: Tranceiver)
    requires IsRun(s, run)
    ensures At(s.incoming, t) + QueuedAt(run, t) == TakenAt(s, run, t) + At(After(s, run).incoming, t)
    decreases |run|
  {
    hide At, Apply, Enabled, QueuedBy, TakenBy;
    if run != [] {
      var a, after, rest := run[0], Apply(s, run[0]), run[1..];
      MessageStep(s, a, t);
      MessagesInOrder(after, rest, t);
      Stretches(At(s.incoming, t), QueuedBy(a, t), TakenBy(a, after, t), At(after.incoming, t),
                QueuedAt(rest, t), TakenAt(after, rest, t), At(After(after, rest).incoming, t));
    }
  }

  lemma {:induction false} WorkInOrder(s: State, run: seq<Action>)
    requires IsRun(s, run)
    ensures s.workList + Announced(s.between, run) == PoppedIn(s, run) + After(s, run).workList
    decreases |run|
  {
    hide AnnouncedBy, PoppedBy, At;
    if run != [] {
      var a, after, rest := run[0], Apply(s, run[0]), run[1..];
      WorkStep(s, a);
      WorkInOrder(after, rest);
      Stretches(s.workList, AnnouncedBy(a, s.between), PoppedBy(a, after), after.workList,
                Announced(after.between, rest), PoppedIn(after, rest), After(after, rest).workList);
    }
  }

  /** In every interleaving, what has been taken from t and what waits there are, in order, exactly what
      was queued at t. */
  lemma FirstInFirstOut(run: seq<Action>, t: Tranceiver)
    requires IsRun(INIT, run)
    ensures QueuedAt(run, t) == TakenAt(INIT, run, t) + At(After(INIT, run).incoming, t)
  {
    MessagesInOrder(INIT, run, t);
  }

  /** In every interleaving, the tranceivers main has taken up and the work list are, in order, exactly
      the tranceivers announced: main serves them in the order in which they were announced. */
  lemma ServedInOrder(run: seq<Action>)
    requires IsRun(INIT, run)
    ensures Announced(map[], run) == PoppedIn(INIT, run) + After(INIT, run).workList
  {
    WorkInOrder(INIT, run);
  }

  // ----- what happens without new traffic

  /** How many actions the threads can still take without new traffic. */
  function Pending(s: State): nat {
    5 * |s.between| + 4 * |s.workList|
    + match s.main
      case Popped(_) => 3
      case Peeked(_) => 2
      case Forwarding(_, _) => 1
      case _ => 0
  }

  lemma StepProgress(s: State, a: Action)
    requires Consistent(s) && Enabled(s, a) && !a.Queue?
    ensures Pending(Apply(s, a)) == Pending(s) - 1
  {
    match a
    case Announce(p) =>
      assert (s.between - {p}).Keys == s.between.Keys - {p};
    case Peek => HeldHasMessage(s);
    case GetMessage => HeldHasMessage(s);
    case _ =>
  }

  /** Without new traffic, every schedule that lets threads run delivers everything: it stops after
      exactly Pending actions, and only where no message waits any more. */
  lemma {:induction false} Drains(s: State, run: seq<Action>)
    requires Consistent(s) && IsRun(s, run)
    requires forall i :: 0 <= i < |run| ==> !run[i].Queue?
    ensures |run| <= Pending(s)
    ensures (forall a: Action :: Enabled(After(s, run), a) ==> a.Queue?)
            <==> |run| == Pending(s)
    ensures |run| == Pending(s) ==> forall t :: At(After(s, run).incoming, t) == []
    decreases |run|
  {
    if run == [] {
      Quiet(s);
    } else {
      StepConsistent(s, run[0]);
      StepProgress(s, run[0]);
      Drains(Apply(s, run[0]), run[1..]);
    }
  }

  /** Nothing left to do means nothing left behind. */
  lemma Quiet(s: State)
    requires Consistent(s)
    ensures (forall a: Action :: Enabled(s, a) ==> a.Queue?) <==> Pending(s) == 0
    ensures Pending(s) == 0 ==> forall t :: At(s.incoming, t) == []
  {
    if Pending(s) == 0 {
      assert s.between.Keys == {} && s.workList == [];
      forall t ensures At(s.incoming, t) == [] {
        assert Balanced(s, t);
        assert Producing(s, t) == {};
      }
    } else if |s.between| > 0 {
      var p :| p in s.between.Keys;
      assert Enabled(s, Announce(p));
    } else {
      assert Enabled(s, Pop) || Enabled(s, Peek) || Enabled(s, GetMessage) || Enabled(s, Forward);
    }
  }
}
