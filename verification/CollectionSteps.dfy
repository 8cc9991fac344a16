/** Which steps of the collection protocol are possible, and which calls can still be completed. */
module CollectionSteps {
  import opened Frames
  import opened Trees
  import opened Trie
  import opened TrieCounts
  import opened Wire
  import opened Collection

  // ---- Steps that are possible ----

  ghost predicate CallGoesOn(s: State, k: Key, S: set<Frame>)
    requires k in s.sessions
  {
    match s.sessions[k].phase
    case Sending(next) => Enabled(s, if next < s.size then Send(k) else Begin(k), S)
    case Receiving =>
      if s.sessions[k].finished < s.size then Enabled(s, Timeout(k), S) else Enabled(s, Finish(k), S)
    case Done(_) => true
  }

  /** Whatever else is going on: every rank may open a call on a tag whose earlier call has returned, every request in
      flight may be served or dropped, every reply to a receiving call that still counts may be received, and no call
      is ever stuck. */
  lemma {:induction false} Possible(s: State, S: set<Frame>)
    requires Sane(s, S)
    ensures forall k: Key | k.rank < s.size && 2 <= k.tag <= 0x7FFF
              && (k in s.sessions ==> s.sessions[k].phase.Done?) :: Enabled(s, Start(k), S)
    ensures forall i | 0 <= i < |s.wire| && s.wire[i].body.Ask? ::
              Enabled(s, Drop(i), S) && forall g | Sendable(g, S) :: Enabled(s, Serve(i, g), S)
    ensures forall i, k | 0 <= i < |s.wire| && s.wire[i].body.Answer? && Owner(s.wire[i]) == k && k in s.sessions
              && s.sessions[k].phase.Receiving? && s.sessions[k].finished < s.size ::
              exists t :: Enabled(s, Receive(k, i, t), S)
    ensures forall k | k in s.sessions :: CallGoesOn(s, k, S)
  {
    hide Sendable, Encode, Build, Encodable, MergeAll;
    forall i | 0 <= i < |s.wire| && s.wire[i].body.Ask?
      ensures Enabled(s, Drop(i), S) && forall g | Sendable(g, S) :: Enabled(s, Serve(i, g), S)
    {
      assert GoodMessage(s, s.wire[i], S);
    }
    forall i, k | 0 <= i < |s.wire| && s.wire[i].body.Answer? && Owner(s.wire[i]) == k && k in s.sessions
      && s.sessions[k].phase.Receiving? && s.sessions[k].finished < s.size
      ensures exists t :: Enabled(s, Receive(k, i, t), S)
    {
      CanReceive(s, i, k, S);
    }
    forall k | k in s.sessions ensures CallGoesOn(s, k, S) {
      assert GoodSession(s, k, S);
    }
  }

  lemma {:induction false} CanReceive(s: State, i: nat, k: Key, S: set<Frame>)
    requires Sane(s, S) && i < |s.wire| && s.wire[i].body.Answer? && Owner(s.wire[i]) == k && k in s.sessions
    requires s.sessions[k].phase.Receiving? && s.sessions[k].finished < s.size
    ensures Enabled(s, Receive(k, i, Build(s.wire[i].body.origin)), S)
  {
    hide Encode, Build, Encodable, MergeAll, GoodSession;
    assert GoodMessage(s, s.wire[i], S);
  }

  // ---- Completing a call ----

  /** `t` is reached from `s` without opening the call `k` anew. */
  ghost predicate Continues(s: State, t: State, k: Key, S: set<Frame>) {
    exists run: seq<State> ::
      && run != [] && run[0] == s && run[|run| - 1] == t
      && forall i | 0 <= i < |run| - 1 :: OtherNext(run[i], run[i + 1], k, S)
  }

  lemma ContinuesSelf(s: State, k: Key, S: set<Frame>)
    ensures Continues(s, s, k, S)
  {
    assert [s][0] == s;
  }

  lemma {:induction false} ContinuesFrom(s: State, u: State, t: State, k: Key, S: set<Frame>)
    requires OtherNext(s, u, k, S) && Continues(u, t, k, S)
    ensures Continues(s, t, k, S)
  {
    hide OtherNext;
    var run: seq<State> :|
      && run != [] && run[0] == u && run[|run| - 1] == t
      && forall i | 0 <= i < |run| - 1 :: OtherNext(run[i], run[i + 1], k, S);
    var r := [s] + run;
    forall i | 0 <= i < |r| - 1 ensures OtherNext(r[i], r[i + 1], k, S) {
      if i > 0 { assert OtherNext(run[i - 1], run[i - 1 + 1], k, S); }
    }
    assert r != [] && r[0] == s && r[|r| - 1] == t;
  }

  /** A call in progress with right accounts, of which no request was dropped. */
  ghost predicate Hopeful(s: State, k: Key, S: set<Frame>) {
    && Sane(s, S) && k in s.sessions && Balanced(s, k) && Delivered(s, k)
    && !s.sessions[k].phase.Done? && s.sessions[k].dropped == []
  }

  /** Steps left until the call has counted all replies. */
  ghost function Left(s: State, k: Key): nat
    requires k in s.sessions
  {
    2 * Tally(s.wire, Requests(k)) + Tally(s.wire, Replies(k)) +
    match s.sessions[k].phase
    case Sending(next) => if next < s.size then 2 + 3 * (s.size - next) else 2
    case Receiving => 1
    case Done(_) => 0
  }

  /** The step brings the call nearer to its end, touches no other call and drops nothing. */
  ghost predicate Nearer(s: State, step: Step, k: Key, S: set<Frame>)
    requires k in s.sessions
  {
    && Enabled(s, step, S) && !Opens(step, k)
    && var s' := Apply(s, step, S);
      && k in s'.sessions && s'.sessions[k].dropped == s.sessions[k].dropped
      && s'.sessions == s.sessions[k := s'.sessions[k]]
      && (s'.sessions[k].phase.Done? ==> s'.sessions[k].phase == Done(true))
      && Left(s', k) < Left(s, k)
  }

  lemma {:induction false} SendNearer(s: State, k: Key, S: set<Frame>)
    requires k in s.sessions && Enabled(s, Send(k), S)
    ensures Nearer(s, Send(k), k, S)
  {
    hide Tally;
    SendTally(s, k, S, Requests(k));
    SendTally(s, k, S, Replies(k));
  }

  lemma {:induction false} ServeNearer(s: State, k: Key, i: nat, g: Stacks, S: set<Frame>)
    requires k in s.sessions && Enabled(s, Serve(i, g), S) && Owner(s.wire[i]) == k
    requires !s.sessions[k].phase.Done?
    ensures Nearer(s, Serve(i, g), k, S)
  {
    hide Tally, Remove, Encode, Build, Encodable;
    ServeTally(s, i, g, S, Requests(k));
    ServeTally(s, i, g, S, Replies(k));
  }

  lemma {:induction false} ReceiveNearer(s: State, k: Key, i: nat, t: Tree, S: set<Frame>)
    requires k in s.sessions && Enabled(s, Receive(k, i, t), S) && Owner(s.wire[i]) == k
    ensures Nearer(s, Receive(k, i, t), k, S)
  {
    hide Tally, Remove, Encode, Merge, Encodable;
    TallyRemove(s.wire, i, Requests(k));
    TallyRemove(s.wire, i, Replies(k));
  }

  /** A message of the kind is in flight, unless there is none. */
  lemma {:induction false} SomeMessage(w: seq<Message>, f: Message -> bool)
    ensures Tally(w, f) > 0 ==> exists i | 0 <= i < |w| :: f(w[i])
  {
    TallyNone(w, f);
  }

  lemma {:induction false} ServeOne(s: State, k: Key, S: set<Frame>) returns (step: Step)
    requires Sane(s, S) && k in s.sessions && !s.sessions[k].phase.Done? && Tally(s.wire, Requests(k)) > 0
    ensures Nearer(s, step, k, S)
  {
    hide Tally, Sendable, Encode, Build, Nearer, Apply;
    SomeMessage(s.wire, Requests(k));
    var i :| 0 <= i < |s.wire| && Requests(k)(s.wire[i]);
    IdleSendable(S);
    assert GoodMessage(s, s.wire[i], S);
    step := Serve(i, Idle());
    ServeNearer(s, k, i, Idle(), S);
  }

  lemma {:induction false} ReceiveOne(s: State, k: Key, S: set<Frame>) returns (step: Step)
    requires Sane(s, S) && k in s.sessions && Tally(s.wire, Replies(k)) > 0
    requires s.sessions[k].phase.Receiving? && s.sessions[k].finished < s.size
    ensures Nearer(s, step, k, S)
  {
    hide Tally, Sendable, Encode, Build, Nearer, Apply, Enabled, GoodMessage, GoodSession;
    SomeMessage(s.wire, Replies(k));
    var i :| 0 <= i < |s.wire| && Replies(k)(s.wire[i]);
    CanReceive(s, i, k, S);
    step := Receive(k, i, Build(s.wire[i].body.origin));
    ReceiveNearer(s, k, i, Build(s.wire[i].body.origin), S);
  }

  lemma {:induction false} StepNearer(s: State, k: Key, S: set<Frame>) returns (step: Step)
    requires Hopeful(s, k, S)
    ensures Nearer(s, step, k, S)
  {
    hide Tally, Sendable, Encode, Build, Delivered, Merge, MergeAll, GoodMessage, Requests, Replies, Remove;
    var c := s.sessions[k];
    assert GoodSession(s, k, S);
    if c.phase.Sending? && c.phase.next < s.size {
      step := Send(k);
      SendNearer(s, k, S);
    } else if c.phase.Sending? {
      step := Begin(k);
    } else if Tally(s.wire, Requests(k)) > 0 {
      step := ServeOne(s, k, S);
    } else if Tally(s.wire, Replies(k)) > 0 {
      step := ReceiveOne(s, k, S);
    } else {
      step := Finish(k);
    }
  }
  /** The call can be completed, while all other calls stand still. */
  lemma {:induction false} CanComplete(s: State, k: Key, S: set<Frame>)
    requires Hopeful(s, k, S)
    ensures exists t :: Completed(s, t, k, S)
    decreases Left(s, k)
  {
    hide Continues, Enabled, Apply, Balanced, Delivered, Sane, Left;
    var step := StepNearer(s, k, S);
    var u := Apply(s, step, S);
    assert OtherNext(s, u, k, S);
    StepKeepsSane(s, step, S);
    StepKeepsAccounts(s, step, k, S);
    if u.sessions[k].phase.Done? {
      ContinuesSelf(u, k, S);
      ContinuesFrom(s, u, u, k, S);
      assert Completed(s, u, k, S);
    } else {
      CanComplete(u, k, S);
      var t :| Completed(u, t, k, S);
      ContinuesFrom(s, u, t, k, S);
      assert Completed(s, t, k, S);
    }
  }

  /** From `s` on the call counts all replies. */
  ghost predicate Completed(s: State, t: State, k: Key, S: set<Frame>) {
    && Continues(s, t, k, S) && k in s.sessions && k in t.sessions && t.sessions[k].phase == Done(true)
    && t.sessions == s.sessions[k := t.sessions[k]]
  }

  /** What was dropped stays dropped. */
  lemma {:induction false} StepDropped(s: State, step: Step, k: Key, S: set<Frame>)
    requires Enabled(s, step, S) && !Opens(step, k) && k in s.sessions
    ensures var s' := Apply(s, step, S); k in s'.sessions && |s.sessions[k].dropped| <= |s'.sessions[k].dropped|
  {
    hide Remove, Sendable, Encode, Build, Merge, Encodable;
  }

  lemma {:induction false} RunDropped(run: seq<State>, k: Key, S: set<Frame>, i: nat)
    requires i < |run| && forall j | 0 <= j < |run| - 1 :: OtherNext(run[j], run[j + 1], k, S)
    requires Sane(run[0], S) && k in run[0].sessions && Balanced(run[0], k) && Delivered(run[0], k)
    ensures Sane(run[i], S) && k in run[i].sessions && Balanced(run[i], k) && Delivered(run[i], k)
    ensures |run[0].sessions[k].dropped| <= |run[i].sessions[k].dropped|
    decreases i
  {
    hide Enabled, Apply, Balanced, Delivered, Sane;
    if i > 0 {
      RunDropped(run, k, S, i - 1);
      assert OtherNext(run[i - 1], run[i - 1 + 1], k, S);
      var step :| Enabled(run[i - 1], step, S) && !Opens(step, k) && run[i] == Apply(run[i - 1], step, S);
      StepKeepsSane(run[i - 1], step, S);
      StepKeepsAccounts(run[i - 1], step, k, S);
      StepDropped(run[i - 1], step, k, S);
    }
  }

  /** A completed call dropped nothing. */
  lemma {:induction false} NoneDropped(s: State, k: Key, S: set<Frame>)
    requires Sane(s, S) && k in s.sessions && Balanced(s, k) && s.sessions[k].phase == Done(true)
    ensures s.sessions[k].dropped == []
  {
    hide Tally, MergeAll, Groups;
    assert GoodSession(s, k, S);
  }

  /** A call with right accounts that has not returned can still be completed if and only if no request of it was
      dropped; no other call need move for it. */
  lemma {:induction false} CompletableExactly(s: State, k: Key, S: set<Frame>)
    requires Sane(s, S) && k in s.sessions && Accurate(s, k) && !s.sessions[k].phase.Done?
    ensures s.sessions[k].dropped == [] <==>
      exists t :: Continues(s, t, k, S) && k in t.sessions && t.sessions[k].phase == Done(true)
    ensures s.sessions[k].dropped == [] ==>
      exists t :: Completed(s, t, k, S)
  {
    hide OtherNext, Balanced, Delivered, Sane;
    if s.sessions[k].dropped == [] {
      CanComplete(s, k, S);
      var t :| Completed(s, t, k, S);
      assert Continues(s, t, k, S);
    }
    if t :| Continues(s, t, k, S) && k in t.sessions && t.sessions[k].phase == Done(true) {
      var run: seq<State> :|
        && run != [] && run[0] == s && run[|run| - 1] == t
        && forall i | 0 <= i < |run| - 1 :: OtherNext(run[i], run[i + 1], k, S);
      RunDropped(run, k, S, |run| - 1);
      NoneDropped(t, k, S);
    }
  }

  /** In every state of every run that opens the call on quiet tags only. */
  lemma {:induction false} RunCompletable(run: seq<State>, i: nat, k: Key, S: set<Frame>)
    requires RunFor(run, k, S) && i < |run| && k in run[i].sessions && !run[i].sessions[k].phase.Done?
    ensures run[i].sessions[k].dropped == [] <==>
      exists t :: Continues(run[i], t, k, S) && k in t.sessions && t.sessions[k].phase == Done(true)
  {
    hide *;
    RunForIsRun(run, k, S);
    RunKeepsSane(run, S, i);
    RunKeepsAccounts(run, k, S, i);
    CompletableExactly(run[i], k, S);
  }
}
